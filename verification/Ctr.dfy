/** AES-CTR seen as a positioned keystream (src/crypto/aes.rs). */
module Ctr {
  import opened Bytes

  /** The keystream a key and an initial counter produce: one byte per position. */
  type Keystream = nat -> byte

  /** `data` combined with the keystream from position `pos` on. */
  function Cipher(ks: Keystream, pos: nat, data: seq<byte>): (r: seq<byte>)
    ensures |r| == |data|
  {
    seq(|data|, i requires 0 <= i < |data| => Xor(data[i], ks(pos + i)))
  }

  /** Byte `i` is combined with keystream byte `pos + i`, bit by bit. */
  lemma CipherBit(ks: Keystream, pos: nat, data: seq<byte>, i: nat, b: nat)
    requires i < |data| && b < 8
    ensures Bit(Cipher(ks, pos, data)[i], b) == if Bit(data[i], b) == Bit(ks(pos + i), b) then 0 else 1
  {
    XorBit(data[i], ks(pos + i), b);
  }

  /** Encrypting in pieces at advancing positions is encrypting in one go. */
  lemma CipherConcat(ks: Keystream, pos: nat, a: seq<byte>, b: seq<byte>)
    ensures Cipher(ks, pos, a + b) == Cipher(ks, pos, a) + Cipher(ks, pos + |a|, b)
  {
    var whole := Cipher(ks, pos, a + b);
    var parts := Cipher(ks, pos, a) + Cipher(ks, pos + |a|, b);
    forall i | 0 <= i < |a + b|
      ensures whole[i] == parts[i]
    {
      if i >= |a| {
        assert pos + i == pos + |a| + (i - |a|);
      }
    }
  }

  /** CTR is its own inverse at equal positions. */
  lemma CipherInvolutive(ks: Keystream, pos: nat, data: seq<byte>)
    ensures Cipher(ks, pos, Cipher(ks, pos, data)) == data
  {
    forall i | 0 <= i < |data|
      ensures Cipher(ks, pos, Cipher(ks, pos, data))[i] == data[i]
    {
      XorInvolutive(data[i], ks(pos + i));
    }
  }

  lemma CipherPrefix(ks: Keystream, pos: nat, a: seq<byte>, b: seq<byte>)
    requires a <= b
    ensures Cipher(ks, pos, a) <= Cipher(ks, pos, b)
  {
    assert b == a + b[|a|..];
    CipherConcat(ks, pos, a, b[|a|..]);
  }

  /** The cipher object: the keystream is fixed, the position advances. */
  class AesCtr {
    const ks: Keystream
    var pos: nat

    constructor (ks: Keystream, pos: nat)
      ensures this.ks == ks && this.pos == pos
    {
      this.ks, this.pos := ks, pos;
    }

    method Apply(data: seq<byte>) returns (r: seq<byte>)
      modifies this
      ensures r == Cipher(ks, old(pos), data)
      ensures pos == old(pos) + |data|
    {
      r := Cipher(ks, pos, data);
      pos := pos + |data|;
    }
  }
}
