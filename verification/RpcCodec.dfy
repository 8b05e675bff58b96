/** The Middle-End RPC codec: framing, CBC chaining across sends, and its inverse
    (src/transport/middle_proxy/codec.rs). */
module RpcCodec {
  import opened Bytes
  import opened Io
  import opened Cbc
  import opened FullFrame
  import opened FrameStream

  const ZERO_BLOCK: Block := [0, 0, 0, 0, 0, 0, 0, 0, 0, 0, 0, 0, 0, 0, 0, 0]

  datatype ChecksumMode = Crc32 | Crc32c

  /** The two checksum functions. */
  datatype Checksums = Checksums(crc32: Crc, crc32c: Crc) {
    function Of(mode: ChecksumMode): Crc {
      if mode.Crc32? then crc32 else crc32c
    }
  }

  /** Append the pad pattern byte by byte up to a whole number of blocks. */
  method Pad(plaintext: seq<byte>) returns (r: seq<byte>)
    ensures r == plaintext + PadBytes(PadLen(|plaintext|)) && Aligned(r)
  {
    var pad := (16 - |plaintext| % 16) % 16;
    var pattern: seq<byte> := [4, 0, 0, 0];
    r := plaintext;
    for i := 0 to pad
      invariant r == plaintext + PadBytes(i)
    {
      assert PadBytes(i + 1) == PadBytes(i) + [pattern[i % 4]];
      r := r + [pattern[i % 4]];
    }
  }

  /** Encrypt a copy of `plaintext` in place; the last ciphertext block chains on. */
  method EncryptChained(cipher: AesCbc, plaintext: seq<byte>) returns (r: seq<byte>)
    requires Aligned(plaintext)
    ensures r == Encrypt(cipher.enc, cipher.iv, plaintext)
  {
    var buf := new byte[|plaintext|](i requires 0 <= i < |plaintext| => plaintext[i]);
    assert buf[..] == plaintext;
    var ok := cipher.EncryptInPlace(buf);
    r := buf[..];
  }

  /** `cbc_encrypt_padded`: for a non-empty plaintext the returned IV continues the chain. */
  method CbcEncryptPadded(enc: BlockFn, dec: BlockFn, iv: Block, plaintext: seq<byte>)
    returns (r: seq<byte>, newIv: Block)
    ensures r == Encrypt(enc, iv, plaintext + PadBytes(PadLen(|plaintext|)))
    ensures newIv == if plaintext == [] then ZERO_BLOCK else LastBlock(iv, r)
  {
    var padded := Pad(plaintext);
    var cipher := new AesCbc(enc, dec, iv);
    r := EncryptChained(cipher, padded);
    newIv := if |r| >= 16 then r[|r| - 16..] else ZERO_BLOCK;
  }

  /** The IV `cbc_decrypt_inplace` hands on. */
  function HandedOn(data: seq<byte>): Block {
    if |data| >= BLOCK then data[|data| - BLOCK..] else ZERO_BLOCK
  }

  /** It continues the chain exactly when there was data or the IV was zero to begin with. */
  lemma HandedOnChains(iv: Block, data: seq<byte>)
    requires Aligned(data)
    ensures HandedOn(data) == LastBlock(iv, data) <==> data != [] || iv == ZERO_BLOCK
  {
  }

  method CbcDecryptInPlace(enc: BlockFn, dec: BlockFn, iv: Block, data: array<byte>) returns (ok: bool, newIv: Block)
    modifies data
    ensures ok == Aligned(old(data[..])) && newIv == HandedOn(old(data[..]))
    ensures data[..] == if ok then Decrypt(dec, iv, old(data[..])) else old(data[..])
  {
    newIv := ZERO_BLOCK;
    if data.Length >= 16 {
      newIv := data[data.Length - 16..];
    }
    var cipher := new AesCbc(enc, dec, iv);
    ok := cipher.DecryptInPlace(data);
  }

  /** One piece, decrypted in a buffer of its own. */
  method DecryptPiece(enc: BlockFn, dec: BlockFn, iv: Block, piece: seq<byte>) returns (plain: seq<byte>, next: Block)
    requires piece != [] && Aligned(piece)
    ensures plain == Decrypt(dec, iv, piece) && next == LastBlock(iv, piece)
  {
    hide Decrypt;
    var buf := new byte[|piece|](j requires 0 <= j < |piece| => piece[j]);
    assert buf[..] == piece;
    var ok;
    ok, next := CbcDecryptInPlace(enc, dec, iv, buf);
    HandedOnChains(iv, piece);
    plain := buf[..];
  }

  /** Decrypting a ciphertext piece by piece with the handed-on IV. */
  method DecryptPieces(enc: BlockFn, dec: BlockFn, iv: Block, pieces: seq<seq<byte>>) returns (plain: seq<byte>)
    requires forall p :: p in pieces ==> p != [] && Aligned(p)
    ensures Aligned(Flatten(pieces))
    ensures plain == Decrypt(dec, iv, Flatten(pieces))
  {
    assert LastBlock(iv, []) == iv;
    hide Decrypt, LastBlock, Flatten, Aligned;
    plain := [];
    var chain := iv;
    EmptyDecrypt(dec, iv);
    assert pieces[..0] == [];
    ghost var done: seq<byte> := [];
    for i := 0 to |pieces|
      invariant done == Flatten(pieces[..i]) && Aligned(done)
      invariant plain == Decrypt(dec, iv, done) && chain == LastBlock(iv, done)
    {
      var piece := pieces[i];
      AlignedAppend(done, piece);
      DecryptConcat(dec, iv, done, piece);
      LastBlockAppend(iv, done, piece);
      FlattenSnoc(pieces[..i], piece);
      assert pieces[..i + 1] == pieces[..i] + [piece];
      var text, next := DecryptPiece(enc, dec, chain, piece);
      plain, chain, done := plain + text, next, done + piece;
    }
    assert pieces[..|pieces|] == pieces;
  }

  lemma EmptyDecrypt(dec: BlockFn, iv: Block)
    ensures Aligned([]) && Decrypt(dec, iv, []) == [] && Flatten([]) == []
  {
  }

  lemma AlignedAppend(a: seq<byte>, b: seq<byte>)
    requires Aligned(a) && Aligned(b)
    ensures Aligned(a + b)
  {
  }

  /** Encrypting more data under the last block goes on with the same chain. */
  lemma ChainOn(enc: BlockFn, iv0: Block, plain: seq<byte>, buf: seq<byte>)
    requires Aligned(plain) && Aligned(buf) && buf != []
    ensures var done := Encrypt(enc, iv0, plain);
            var out := Encrypt(enc, LastBlock(iv0, done), buf);
            && Aligned(plain + buf) && Encrypt(enc, iv0, plain + buf) == done + out
            && |out| >= 16 && LastBlock(iv0, done + out) == out[|out| - 16..]
  {
    assert |buf| >= 16;
    AlignedAppend(plain, buf);
    hide Encrypt, Aligned;
    var done := Encrypt(enc, iv0, plain);
    EncryptConcat(enc, iv0, plain, buf);
    LastBlockAppend(iv0, done, Encrypt(enc, LastBlock(iv0, done), buf));
  }

  // ---- Plaintext frames of the connection's own handshake ----

  datatype PlainFrame = PlainOk(seqNo: i32, payload: seq<byte>, tail: seq<byte>) | PlainErr(e: ReadError)

  /** One plaintext frame at the start of `input`: no filler words are skipped, any sequence number
      and any length in bytes will do. */
  function PlainFrameAt(crc: Crc, input: seq<byte>): PlainFrame {
    if |input| < 4 then PlainErr(Eof)
    else
      var len := FromLe32(input[..4]);
      if len < MIN_LEN || len > MAX_LEN then PlainErr(BadLength)
      else if |input| < len then PlainErr(Eof)
      else if FromLe32(input[len - 4..len]) != crc(input[..len - 4]) then PlainErr(BadCrc)
      else PlainOk(FromBits(FromLe32(input[4..8])), input[8..len - 4], input[len..])
  }

  /** `read_rpc_frame_plaintext`, which always checks CRC32. */
  method ReadPlainFrame(stream: ByteStream, sums: Checksums) returns (r: PlainFrame)
    modifies stream
    ensures r == PlainFrameAt(sums.Of(Crc32), old(stream.rest))
    ensures r.PlainOk? ==> stream.rest == r.tail
  {
    hide FromLe32;
    ghost var input := stream.rest;
    var lenBytes := stream.ReadExact(4);
    if lenBytes.None? {
      return PlainErr(Eof);
    }
    var len := FromLe32(lenBytes.value);
    if len < 12 || len > 0x100_0000 {
      return PlainErr(BadLength);
    }
    var rest := stream.ReadExact(len - 4);
    if rest.None? {
      return PlainErr(Eof);
    }
    var full := lenBytes.value + rest.value;
    assert full == input[..len] && stream.rest == input[len..];
    var crcOffset := len - 4;
    assert full[crcOffset..crcOffset + 4] == input[crcOffset..len] && full[..crcOffset] == input[..crcOffset];
    assert full[4..8] == input[4..8] && full[8..crcOffset] == input[8..crcOffset];
    if FromLe32(full[crcOffset..crcOffset + 4]) != sums.Of(Crc32)(full[..crcOffset]) {
      return PlainErr(BadCrc);
    }
    r := PlainOk(FromBits(FromLe32(full[4..8])), full[8..crcOffset], stream.rest);
  }

  /** It reads back exactly what `build_rpc_frame` builds in CRC32 mode, up to the length limit... */
  lemma PlainFrameRoundTrip(crc: Crc, seqNo: i32, payload: seq<byte>, tail: seq<byte>)
    ensures PlainFrameAt(crc, Frame(crc, seqNo, payload) + tail) == PlainOk(seqNo, payload, tail)
       <==> |payload| + MIN_LEN <= MAX_LEN
  {
    hide Le32, FromLe32;
    var input, len := Frame(crc, seqNo, payload) + tail, |payload| + MIN_LEN;
    assert input[..4] == Le32(len % U32);
    Le32RoundTrip(len % U32);
    if len <= MAX_LEN {
      Le32RoundTrip(Bits(seqNo));
      Le32RoundTrip(crc(Head(seqNo, payload)));
      assert input[4..8] == Le32(Bits(seqNo)) && input[8..len - 4] == payload && input[len..] == tail;
      assert input[..len - 4] == Head(seqNo, payload);
      assert input[len - 4..len] == Le32(crc(Head(seqNo, payload)));
    }
  }

  /** ...and accepts nothing else. */
  lemma PlainFrameOnlyFrames(crc: Crc, input: seq<byte>)
    requires PlainFrameAt(crc, input).PlainOk?
    ensures var r := PlainFrameAt(crc, input); input == Frame(crc, r.seqNo, r.payload) + r.tail
  {
    hide Le32, FromLe32;
    var r := PlainFrameAt(crc, input);
    var len := FromLe32(input[..4]);
    Le32Inverse(input[..4]);
    Le32Inverse(input[4..8]);
    Le32Inverse(input[len - 4..len]);
    assert Bits(r.seqNo) == FromLe32(input[4..8]);
    assert input[..len - 4] == input[..4] + input[4..8] + input[8..len - 4];
    assert input == input[..len - 4] + input[len - 4..len] + input[len..];
  }

  class RpcWriter {
    const enc: BlockFn
    const dec: BlockFn
    const sums: Checksums
    const mode: ChecksumMode
    var iv: Block
    var seqNo: i32
    var sent: seq<byte>
    /** History: initial IV and number, payloads sent, and whether a write ever failed. */
    ghost const iv0: Block
    ghost const seq0: i32
    ghost var payloads: seq<seq<byte>>
    ghost var broken: bool

    /** The run invariant: the sent bytes are one CBC encryption of all padded frames. */
    ghost predicate Valid()
      reads this
    {
      && seqNo == Advance(seq0, |payloads|)
      && var plain := PaddedFrames(sums.Of(mode), seq0, payloads);
         && iv == LastBlock(iv0, Encrypt(enc, iv0, plain))
         && (!broken ==> sent == Encrypt(enc, iv0, plain))
    }

    constructor (enc: BlockFn, dec: BlockFn, sums: Checksums, mode: ChecksumMode, iv: Block, seqNo: i32)
      ensures Valid() && !broken && payloads == []
      ensures this.enc == enc && this.dec == dec && this.sums == sums && this.mode == mode
      ensures iv0 == iv && seq0 == seqNo && sent == []
    {
      this.enc, this.dec, this.sums, this.mode := enc, dec, sums, mode;
      this.iv, this.seqNo, sent := iv, seqNo, [];
      iv0, seq0, payloads, broken := iv, seqNo, [], false;
    }

    method BuildFrame(payload: seq<byte>) returns (frame: seq<byte>)
      ensures frame == Frame(sums.Of(mode), seqNo, payload)
    {
      var total := (4 + 4 + |payload| + 4) % U32;
      frame := Le32(total) + Le32(Bits(seqNo)) + payload;
      var checksum := match mode { case Crc32 => sums.crc32(frame) case Crc32c => sums.crc32c(frame) };
      frame := frame + Le32(checksum);
    }

    /** `cut` is the environment's answer: None when everything was written, Some(n) when the
        connection failed after n bytes. */
    method Send(payload: seq<byte>, cut: Option<nat>) returns (ok: bool)
      requires Valid()
      modifies this
      ensures Valid() && payloads == old(payloads) + [payload]
      ensures ok == cut.None? && broken == (old(broken) || !ok)
      ensures seqNo == Next(old(seqNo)) && Bits(seqNo) == (Bits(seq0) + |payloads|) % U32
    {
      hide Encrypt, Frame, PadBytes, Advance, PaddedFrames, LastBlock;
      ghost var crc, plain := sums.Of(mode), PaddedFrames(sums.Of(mode), seq0, payloads);
      var frame := BuildFrame(payload);
      PaddedFramesSnoc(crc, seq0, payloads, payload);
      AdvanceNext(seq0, |payloads|);
      AdvanceCounts(seq0, |payloads| + 1);
      seqNo := Next(seqNo);
      var buf := Pad(frame);
      ChainOn(enc, iv0, plain, buf);
      var cipher := new AesCbc(enc, dec, iv);
      var out := EncryptChained(cipher, buf);
      payloads := payloads + [payload];
      if |out| >= 16 {
        iv := out[|out| - 16..];
      }
      ok := cut.None?;
      sent := sent + (if ok then out else out[..Min(cut.value, |out|)]);
      broken := broken || !ok;
    }
  }

  method SendAll(writer: RpcWriter, payloads: seq<seq<byte>>)
    requires writer.Valid() && writer.payloads == [] && !writer.broken
    modifies writer
    ensures writer.Valid() && writer.payloads == payloads && !writer.broken
  {
    for i := 0 to |payloads|
      invariant writer.Valid() && writer.payloads == payloads[..i] && !writer.broken
    {
      assert payloads[..i + 1] == payloads[..i] + [payloads[i]];
      var ok := writer.Send(payloads[i], None);
    }
  }

  /** `splits` into non-empty block-aligned pieces: every split of the ciphertext decrypts and
      parses back to the payloads sent. */
  method SendAndReceive(enc: BlockFn, dec: BlockFn, sums: Checksums, mode: ChecksumMode, iv: Block, seqNo: i32,
                        payloads: seq<seq<byte>>, split: seq<byte> -> seq<seq<byte>>)
    returns (wire: seq<byte>, got: seq<seq<byte>>)
    requires Inverse(enc, dec)
    requires forall p :: p in payloads ==> ValidMsg(p)
    requires forall c :: Aligned(c) ==> Flatten(split(c)) == c && forall p :: p in split(c) ==> p != [] && Aligned(p)
    ensures wire == Encrypt(enc, iv, PaddedFrames(sums.Of(mode), seqNo, payloads))
    ensures got == payloads
  {
    hide Encrypt, Decrypt, PaddedFrames;
    var writer := new RpcWriter(enc, dec, sums, mode, iv, seqNo);
    SendAll(writer, payloads);
    wire := writer.sent;
    ghost var plain := PaddedFrames(sums.Of(mode), seqNo, payloads);
    DecryptInvertsEncrypt(enc, dec, iv, plain);
    var text := DecryptPieces(enc, dec, iv, split(wire));
    got := ReadAll(sums.Of(mode), seqNo, text, |payloads|, payloads);
  }
}
