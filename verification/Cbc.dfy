/** AES-CBC over an abstract block cipher (src/crypto/aes.rs); section 6.2 of NIST SP 800-38A. */
module Cbc {
  import opened Bytes
  import opened Io

  const BLOCK: nat := 16

  type Block = b: seq<byte> | |b| == BLOCK witness seq(BLOCK, _ => 0)
  type BlockFn = Block -> Block

  /** Block decryption undoes block encryption. */
  ghost predicate Inverse(enc: BlockFn, dec: BlockFn) {
    forall b: Block :: dec(enc(b)) == b
  }

  function XorSeq(a: seq<byte>, b: seq<byte>): (r: seq<byte>)
    requires |a| == |b|
    ensures |r| == |a|
  {
    seq(|a|, i requires 0 <= i < |a| => Xor(a[i], b[i]))
  }

  lemma XorSeqInvolutive(a: seq<byte>, b: seq<byte>)
    requires |a| == |b|
    ensures XorSeq(XorSeq(a, b), b) == a
  {
    forall i | 0 <= i < |a|
      ensures XorSeq(XorSeq(a, b), b)[i] == a[i]
    {
      XorInvolutive(a[i], b[i]);
    }
  }

  predicate Aligned(data: seq<byte>) {
    |data| % BLOCK == 0
  }

  /** C[i] = enc(P[i] xor C[i-1]) with C[-1] = iv. */
  function Encrypt(enc: BlockFn, iv: Block, data: seq<byte>): (r: seq<byte>)
    requires Aligned(data)
    ensures |r| == |data|
    decreases |data|
  {
    if data == [] then []
    else
      var c: Block := enc(XorSeq(data[..BLOCK], iv));
      c + Encrypt(enc, c, data[BLOCK..])
  }

  /** P[i] = dec(C[i]) xor C[i-1] with C[-1] = iv. */
  function Decrypt(dec: BlockFn, iv: Block, data: seq<byte>): (r: seq<byte>)
    requires Aligned(data)
    ensures |r| == |data|
    decreases |data|
  {
    if data == [] then []
    else XorSeq(dec(data[..BLOCK]), iv) + Decrypt(dec, data[..BLOCK], data[BLOCK..])
  }

  /** The block the next one is chained to after ciphertext `c`. */
  function LastBlock(iv: Block, c: seq<byte>): Block
    requires Aligned(c)
  {
    if c == [] then iv else c[|c| - BLOCK..]
  }

  lemma {:induction false} DecryptInvertsEncrypt(enc: BlockFn, dec: BlockFn, iv: Block, data: seq<byte>)
    requires Inverse(enc, dec) && Aligned(data)
    ensures Decrypt(dec, iv, Encrypt(enc, iv, data)) == data
    decreases |data|
  {
    if data != [] {
      var p := data[..BLOCK];
      var c: Block := enc(XorSeq(p, iv));
      var rest := Encrypt(enc, c, data[BLOCK..]);
      assert (c + rest)[..BLOCK] == c && (c + rest)[BLOCK..] == rest;
      DecryptInvertsEncrypt(enc, dec, c, data[BLOCK..]);
      XorSeqInvolutive(p, iv);
    }
  }

  lemma LastBlockAppend(iv: Block, a: seq<byte>, b: seq<byte>)
    requires Aligned(a) && Aligned(b)
    ensures LastBlock(LastBlock(iv, a), b) == LastBlock(iv, a + b)
  {
  }

  lemma EncryptCons(enc: BlockFn, iv: Block, p: Block, rest: seq<byte>)
    requires Aligned(rest)
    ensures var c: Block := enc(XorSeq(p, iv));
            Encrypt(enc, iv, p + rest) == c + Encrypt(enc, c, rest)
  {
    assert (p + rest)[..BLOCK] == p && (p + rest)[BLOCK..] == rest;
  }

  lemma NextBlock(i: nat, n: nat)
    requires i < n && i % BLOCK == 0 && n % BLOCK == 0
    ensures i + BLOCK <= n && (i + BLOCK) % BLOCK == 0
  {
    var a, b := i / BLOCK, n / BLOCK;
    assert i == BLOCK * a && n == BLOCK * b;
  }

  lemma LastOfAppended(iv: Block, a: seq<byte>, c: Block)
    requires Aligned(a)
    ensures LastBlock(iv, a + c) == c
  {
  }

  /** Encryption splits at any block boundary, the last ciphertext block becoming the next IV. */
  lemma {:induction false} EncryptConcat(enc: BlockFn, iv: Block, a: seq<byte>, b: seq<byte>)
    requires Aligned(a) && Aligned(b)
    ensures Encrypt(enc, iv, a + b)
         == Encrypt(enc, iv, a) + Encrypt(enc, LastBlock(iv, Encrypt(enc, iv, a)), b)
    decreases |a|
  {
    assert Encrypt(enc, iv, []) == [];
    hide Encrypt, XorSeq;
    if a == [] {
      assert a + b == b;
    } else {
      var p: Block, rest := a[..BLOCK], a[BLOCK..];
      var c: Block := enc(XorSeq(p, iv));
      assert a == p + rest && a + b == p + (rest + b);
      EncryptCons(enc, iv, p, rest);
      EncryptCons(enc, iv, p, rest + b);
      EncryptConcat(enc, c, rest, b);
      LastBlockAppend(iv, c, Encrypt(enc, c, rest));
      assert LastBlock(iv, c) == c;
    }
  }

  lemma {:induction false} DecryptConcat(dec: BlockFn, iv: Block, a: seq<byte>, b: seq<byte>)
    requires Aligned(a) && Aligned(b)
    ensures Decrypt(dec, iv, a + b) == Decrypt(dec, iv, a) + Decrypt(dec, LastBlock(iv, a), b)
    decreases |a|
  {
    if a == [] {
      assert a + b == b;
    } else {
      var c: Block := a[..BLOCK];
      var rest := a[BLOCK..];
      assert (a + b)[..BLOCK] == c && (a + b)[BLOCK..] == rest + b;
      DecryptConcat(dec, c, rest, b);
      assert a == c + rest;
      LastBlockAppend(iv, c, rest);
      assert LastBlock(iv, c) == c;
    }
  }

  lemma OneBlock(enc: BlockFn, dec: BlockFn, iv: Block, p: Block)
    ensures Encrypt(enc, iv, p) == enc(XorSeq(p, iv))
    ensures Decrypt(dec, iv, p) == XorSeq(dec(p), iv)
  {
    assert p[..BLOCK] == p && p[BLOCK..] == [];
    assert Encrypt(enc, enc(XorSeq(p, iv)), []) == [];
  }

  /** One more block at the end of what was processed so far. */
  lemma EncryptSnoc(enc: BlockFn, iv: Block, a: seq<byte>, p: Block)
    requires Aligned(a)
    ensures var done := Encrypt(enc, iv, a);
            Encrypt(enc, iv, a + p) == done + enc(XorSeq(p, LastBlock(iv, done)))
  {
    EncryptConcat(enc, iv, a, p);
    OneBlock(enc, enc, LastBlock(iv, Encrypt(enc, iv, a)), p);
  }

  lemma DecryptSnoc(dec: BlockFn, iv: Block, a: seq<byte>, c: Block)
    requires Aligned(a)
    ensures Decrypt(dec, iv, a + c) == Decrypt(dec, iv, a) + XorSeq(dec(c), LastBlock(iv, a))
  {
    DecryptConcat(dec, iv, a, c);
    OneBlock(dec, dec, LastBlock(iv, a), c);
  }

  /** Combine the block at `i` with `prev` in place. */
  method XorInPlace(data: array<byte>, i: nat, prev: Block)
    requires i + BLOCK <= data.Length
    modifies data
    ensures data[i..i + BLOCK] == XorSeq(old(data[i..i + BLOCK]), prev)
    ensures data[..i] == old(data[..i]) && data[i + BLOCK..] == old(data[i + BLOCK..])
  {
    for j := 0 to BLOCK
      invariant forall k :: 0 <= k < j ==> data[i + k] == Xor(old(data[i + k]), prev[k])
      invariant forall k :: 0 <= k < data.Length && !(i <= k < i + j) ==> data[k] == old(data[k])
    {
      data[i + j] := Xor(data[i + j], prev[j]);
    }
  }

  method StoreBlock(data: array<byte>, i: nat, b: Block)
    requires i + BLOCK <= data.Length
    modifies data
    ensures data[i..i + BLOCK] == b
    ensures data[..i] == old(data[..i]) && data[i + BLOCK..] == old(data[i + BLOCK..])
  {
    forall k | 0 <= k < BLOCK {
      data[i + k] := b[k];
    }
  }

  /** The cipher object. Both directions refuse data that is not whole blocks. */
  class AesCbc {
    const enc: BlockFn
    const dec: BlockFn
    const iv: Block

    constructor (enc: BlockFn, dec: BlockFn, iv: Block)
      ensures this.enc == enc && this.dec == dec && this.iv == iv
    {
      this.enc, this.dec, this.iv := enc, dec, iv;
    }

    method EncryptCopy(data: seq<byte>) returns (r: Option<seq<byte>>)
      ensures r == if Aligned(data) then Some(Encrypt(enc, iv, data)) else None
    {
      if |data| % BLOCK != 0 {
        return None;
      }
      assert Encrypt(enc, iv, []) == [];
      assert LastBlock(iv, []) == iv;
      hide Encrypt, XorSeq, LastBlock;
      var out: seq<byte>, prev: Block, i := [], iv, 0;
      while i < |data|
        invariant 0 <= i <= |data| && i % BLOCK == 0
        invariant out == Encrypt(enc, iv, data[..i]) && prev == LastBlock(iv, out)
      {
        NextBlock(i, |data|);
        var p: Block := data[i..i + BLOCK];
        var c := enc(XorSeq(p, prev));
        EncryptSnoc(enc, iv, data[..i], p);
        LastOfAppended(iv, out, c);
        assert data[..i + BLOCK] == data[..i] + p;
        prev, out, i := c, out + c, i + BLOCK;
      }
      assert data[..i] == data;
      r := Some(out);
    }

    method DecryptCopy(data: seq<byte>) returns (r: Option<seq<byte>>)
      ensures r == if Aligned(data) then Some(Decrypt(dec, iv, data)) else None
    {
      if |data| % BLOCK != 0 {
        return None;
      }
      assert Decrypt(dec, iv, []) == [];
      assert LastBlock(iv, []) == iv;
      hide Decrypt, XorSeq, LastBlock;
      var out: seq<byte>, prev: Block, i := [], iv, 0;
      while i < |data|
        invariant 0 <= i <= |data| && i % BLOCK == 0
        invariant out == Decrypt(dec, iv, data[..i]) && prev == LastBlock(iv, data[..i])
      {
        NextBlock(i, |data|);
        var c: Block := data[i..i + BLOCK];
        var p := XorSeq(dec(c), prev);
        DecryptSnoc(dec, iv, data[..i], c);
        LastOfAppended(iv, data[..i], c);
        assert data[..i + BLOCK] == data[..i] + c;
        prev, out, i := c, out + p, i + BLOCK;
      }
      assert data[..i] == data;
      r := Some(out);
    }

    method EncryptInPlace(data: array<byte>) returns (ok: bool)
      modifies data
      ensures ok == Aligned(old(data[..]))
      ensures data[..] == if ok then Encrypt(enc, iv, old(data[..])) else old(data[..])
    {
      if data.Length % BLOCK != 0 {
        return false;
      }
      ghost var was := data[..];
      assert Encrypt(enc, iv, []) == [] && LastBlock(iv, []) == iv;
      hide Encrypt, LastBlock;
      var prev: Block, i := iv, 0;
      while i < data.Length
        invariant 0 <= i <= data.Length && i % BLOCK == 0
        invariant data[..i] == Encrypt(enc, iv, was[..i]) && prev == LastBlock(iv, data[..i])
        invariant data[i..] == was[i..]
      {
        NextBlock(i, data.Length);
        prev := EncryptBlockAt(data, i, prev, was);
        i := i + BLOCK;
      }
      assert was[..i] == was && data[..i] == data[..];
      ok := true;
    }

    /** The loop body: chain, encrypt and store the block at `i`. */
    method EncryptBlockAt(data: array<byte>, i: nat, prev: Block, ghost was: seq<byte>) returns (next: Block)
      requires i + BLOCK <= data.Length && i % BLOCK == 0 && |was| == data.Length
      requires data[..i] == Encrypt(enc, iv, was[..i]) && prev == LastBlock(iv, data[..i])
      requires data[i..] == was[i..]
      modifies data
      ensures data[..i + BLOCK] == Encrypt(enc, iv, was[..i + BLOCK])
      ensures next == LastBlock(iv, data[..i + BLOCK])
      ensures data[i + BLOCK..] == was[i + BLOCK..]
    {
      hide Encrypt, XorSeq;
      ghost var p: Block := was[i..i + BLOCK];
      assert data[i..i + BLOCK] == p;
      ghost var tail := data[i + BLOCK..];
      assert tail == was[i + BLOCK..];
      XorInPlace(data, i, prev);
      next := enc(data[i..i + BLOCK]);
      StoreBlock(data, i, next);
      EncryptSnoc(enc, iv, was[..i], p);
      assert was[..i + BLOCK] == was[..i] + p;
      assert data[..i + BLOCK] == data[..i] + next;
    }

    method DecryptInPlace(data: array<byte>) returns (ok: bool)
      modifies data
      ensures ok == Aligned(old(data[..]))
      ensures data[..] == if ok then Decrypt(dec, iv, old(data[..])) else old(data[..])
    {
      if data.Length % BLOCK != 0 {
        return false;
      }
      ghost var was := data[..];
      assert Decrypt(dec, iv, []) == [] && LastBlock(iv, []) == iv;
      hide Decrypt, LastBlock;
      var prev: Block, i := iv, 0;
      while i < data.Length
        invariant 0 <= i <= data.Length && i % BLOCK == 0
        invariant data[..i] == Decrypt(dec, iv, was[..i]) && prev == LastBlock(iv, was[..i])
        invariant data[i..] == was[i..]
      {
        NextBlock(i, data.Length);
        prev := DecryptBlockAt(data, i, prev, was);
        i := i + BLOCK;
      }
      assert was[..i] == was && data[..i] == data[..];
      ok := true;
    }

    /** The loop body: keep the ciphertext block, decrypt it in place and unchain it. */
    method DecryptBlockAt(data: array<byte>, i: nat, prev: Block, ghost was: seq<byte>) returns (next: Block)
      requires i + BLOCK <= data.Length && i % BLOCK == 0 && |was| == data.Length
      requires data[..i] == Decrypt(dec, iv, was[..i]) && prev == LastBlock(iv, was[..i])
      requires data[i..] == was[i..]
      modifies data
      ensures data[..i + BLOCK] == Decrypt(dec, iv, was[..i + BLOCK])
      ensures next == LastBlock(iv, was[..i + BLOCK])
      ensures data[i + BLOCK..] == was[i + BLOCK..]
    {
      hide Decrypt, XorSeq;
      ghost var c: Block := was[i..i + BLOCK];
      assert data[i..i + BLOCK] == c;
      ghost var tail := data[i + BLOCK..];
      assert tail == was[i + BLOCK..];
      next := data[i..i + BLOCK];
      StoreBlock(data, i, dec(next));
      XorInPlace(data, i, prev);
      DecryptSnoc(dec, iv, was[..i], c);
      assert was[..i + BLOCK] == was[..i] + c;
      assert data[..i + BLOCK] == data[..i] + data[i..i + BLOCK];
    }
  }
}
