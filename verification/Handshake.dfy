/** The obfuscated handshake: where keys, IVs, tag and datacenter lie in the 64 bytes, and where the
    keystreams stand afterwards (src/proxy/handshake.rs, src/protocol/constants.rs). */
module Handshake {
  import opened Bytes
  import opened Io
  import opened Ctr
  import opened FrameCodec

  const SKIP_LEN: nat := 8
  const KEY_LEN: nat := 32
  const IV_LEN: nat := 16
  const HANDSHAKE_LEN: nat := 64
  const PROTO_TAG_POS: nat := 56
  const DC_IDX_POS: nat := 60

  type Nonce = n: seq<byte> | |n| == HANDSHAKE_LEN witness seq(HANDSHAKE_LEN, _ => 0)

  /** The keystream of a 32-byte key and a 16-byte big-endian counter. */
  type CtrFn = (seq<byte>, seq<byte>) -> Keystream

  function TagBytes(tag: ProtoTag): (r: seq<byte>)
    ensures |r| == 4
  {
    match tag
    case Abridged => [0xef, 0xef, 0xef, 0xef]
    case Intermediate => [0xee, 0xee, 0xee, 0xee]
    case Secure => [0xdd, 0xdd, 0xdd, 0xdd]
  }

  function TagOf(b: seq<byte>): Option<ProtoTag> {
    if b == TagBytes(Abridged) then Some(Abridged)
    else if b == TagBytes(Intermediate) then Some(Intermediate)
    else if b == TagBytes(Secure) then Some(Secure)
    else None
  }

  /** Four bytes name a framing exactly when they are its tag. */
  lemma TagRoundTrip(tag: ProtoTag, b: seq<byte>)
    ensures TagOf(b) == Some(tag) <==> b == TagBytes(tag)
  {
    assert TagBytes(Abridged)[0] == 0xef && TagBytes(Intermediate)[0] == 0xee && TagBytes(Secure)[0] == 0xdd;
  }

  /** Key and IV lie next to each other after the first eight bytes. */
  function KeyIv(n: Nonce): seq<byte> {
    n[SKIP_LEN..PROTO_TAG_POS]
  }

  predicate Reserved(n: Nonce) {
    || n[0] == 0xef
    || n[..4] in [[0x48, 0x45, 0x41, 0x44], [0x50, 0x4f, 0x53, 0x54], [0x47, 0x45, 0x54, 0x20],
                  [0xee, 0xee, 0xee, 0xee], [0xdd, 0xdd, 0xdd, 0xdd], [0x16, 0x03, 0x01, 0x02]]
    || n[4..8] == [0, 0, 0, 0]
  }

  /** A random draw with tag, datacenter and, in fast mode, the reversed client key and IV written in. */
  function Filled(draw: Nonce, tag: ProtoTag, dc: seq<byte>, clientKeyIv: seq<byte>, fast: bool): Nonce
    requires |dc| == 2 && |clientKeyIv| == KEY_LEN + IV_LEN
  {
    draw[..SKIP_LEN] + (if fast then Reverse(clientKeyIv) else KeyIv(draw))
    + TagBytes(tag) + dc + draw[DC_IDX_POS + 2..]
  }

  datatype TgKeys = TgKeys(nonce: Nonce, encKeyIv: seq<byte>, decKeyIv: seq<byte>)

  /** Where the fields of a filled draw lie; it still does not look like another protocol. */
  lemma FilledLayout(draw: Nonce, tag: ProtoTag, dc: seq<byte>, clientKeyIv: seq<byte>, fast: bool)
    requires |dc| == 2 && |clientKeyIv| == KEY_LEN + IV_LEN
    ensures var nonce := Filled(draw, tag, dc, clientKeyIv, fast);
            && Reserved(nonce) == Reserved(draw)
            && nonce[..SKIP_LEN] == draw[..SKIP_LEN] && nonce[DC_IDX_POS + 2..] == draw[DC_IDX_POS + 2..]
            && (!fast ==> KeyIv(nonce) == KeyIv(draw))
            && nonce[PROTO_TAG_POS..DC_IDX_POS] == TagBytes(tag) && nonce[DC_IDX_POS..DC_IDX_POS + 2] == dc
            && (fast ==> Reverse(KeyIv(nonce)) == clientKeyIv)
  {
    hide TagBytes;
    var nonce := Filled(draw, tag, dc, clientKeyIv, fast);
    assert nonce[..SKIP_LEN] == draw[..SKIP_LEN];
    assert nonce[..4] == draw[..4] && nonce[4..8] == draw[4..8];
    assert fast ==> KeyIv(nonce) == Reverse(clientKeyIv);
    ReverseInvolutive(clientKeyIv);
  }

  /** Apart from tag and datacenter, and in fast mode key and IV, a nonce keeps the bytes drawn. */
  predicate Keeps(nonce: Nonce, draw: Nonce, fast: bool) {
    && nonce[..SKIP_LEN] == draw[..SKIP_LEN] && nonce[DC_IDX_POS + 2..] == draw[DC_IDX_POS + 2..]
    && (!fast ==> nonce[SKIP_LEN..PROTO_TAG_POS] == draw[SKIP_LEN..PROTO_TAG_POS])
  }

  /** Writing the fields one after the other. */
  lemma SameAsFilled(draw: Nonce, tag: ProtoTag, dc: seq<byte>, clientKeyIv: seq<byte>, fast: bool, nonce: seq<byte>)
    requires |dc| == 2 && |clientKeyIv| == KEY_LEN + IV_LEN
    requires var tagged := draw[..PROTO_TAG_POS] + TagBytes(tag) + draw[DC_IDX_POS..];
             var routed := tagged[..DC_IDX_POS] + dc + tagged[DC_IDX_POS + 2..];
             nonce == if fast then routed[..SKIP_LEN] + Reverse(clientKeyIv) + routed[PROTO_TAG_POS..] else routed
    ensures nonce == Filled(draw, tag, dc, clientKeyIv, fast)
  {
    hide TagBytes;
  }

  /** The checks in the order they are made. */
  method LooksReserved(n: Nonce) returns (r: bool)
    ensures r == Reserved(n)
  {
    if n[0] == 0xef {
      return true;
    }
    var first := n[..4];
    if first == [0x48, 0x45, 0x41, 0x44] || first == [0x50, 0x4f, 0x53, 0x54] || first == [0x47, 0x45, 0x54, 0x20]
       || first == [0xee, 0xee, 0xee, 0xee] || first == [0xdd, 0xdd, 0xdd, 0xdd] || first == [0x16, 0x03, 0x01, 0x02]
    {
      return true;
    }
    r := n[4..8] == [0, 0, 0, 0];
  }

  /** `draws` are the random source's answers. The first one that does not start like another protocol
      is used; the source draws on for as long as none does. */
  method GenerateTgNonce(tag: ProtoTag, dc: seq<byte>, clientKeyIv: seq<byte>, fast: bool, draws: seq<Nonce>)
    returns (r: Option<TgKeys>)
    requires |dc| == 2 && |clientKeyIv| == KEY_LEN + IV_LEN
    ensures r.None? <==> forall d :: d in draws ==> Reserved(d)
    ensures r.Some? ==>
              && !Reserved(r.value.nonce)
              && r.value.nonce[PROTO_TAG_POS..DC_IDX_POS] == TagBytes(tag)
              && r.value.nonce[DC_IDX_POS..DC_IDX_POS + 2] == dc
              && r.value.encKeyIv == KeyIv(r.value.nonce)
              && r.value.decKeyIv == Reverse(KeyIv(r.value.nonce))
    ensures r.Some? && fast ==> r.value.decKeyIv == clientKeyIv
    ensures r.Some? ==> exists i :: 0 <= i < |draws| && (forall j :: 0 <= j < i ==> Reserved(draws[j]))
                                 && Keeps(r.value.nonce, draws[i], fast)
  {
    hide Filled, Reserved, TagBytes;
    var i := 0;
    while i < |draws|
      invariant 0 <= i <= |draws| && forall d :: d in draws[..i] ==> Reserved(d)
    {
      var draw := draws[i];
      var reserved := LooksReserved(draw);
      if !reserved {
        var nonce := draw[..PROTO_TAG_POS] + TagBytes(tag) + draw[DC_IDX_POS..];
        nonce := nonce[..DC_IDX_POS] + dc + nonce[DC_IDX_POS + 2..];
        if fast {
          nonce := nonce[..SKIP_LEN] + Reverse(clientKeyIv) + nonce[PROTO_TAG_POS..];
        }
        SameAsFilled(draw, tag, dc, clientKeyIv, fast, nonce);
        FilledLayout(draw, tag, dc, clientKeyIv, fast);
        assert draw in draws;
        return Some(TgKeys(nonce, KeyIv(nonce), Reverse(KeyIv(nonce))));
      }
      i := i + 1;
    }
    r := None;
  }

  function KeystreamOf(ctr: CtrFn, keyIv: seq<byte>): Keystream
    requires |keyIv| == KEY_LEN + IV_LEN
  {
    ctr(keyIv[..KEY_LEN], keyIv[KEY_LEN..])
  }

  /** The first 56 bytes travel in the clear, the rest encrypted; the cipher has run over all 64. */
  method EncryptTgNonce(ctr: CtrFn, nonce: Nonce) returns (wire: Nonce, encryptor: AesCtr, decryptor: AesCtr)
    ensures fresh(encryptor) && fresh(decryptor) && encryptor != decryptor
    ensures wire == Obfuscated(ctr, KeyIv(nonce), nonce)
    ensures encryptor.ks == KeystreamOf(ctr, KeyIv(nonce)) && encryptor.pos == HANDSHAKE_LEN
    ensures decryptor.ks == KeystreamOf(ctr, Reverse(KeyIv(nonce))) && decryptor.pos == 0
  {
    var encKeyIv := nonce[8..56];
    var decKeyIv := Reverse(encKeyIv);
    encryptor := new AesCtr(ctr(encKeyIv[..32], encKeyIv[32..]), 0);
    var full := encryptor.Apply(nonce);
    wire := nonce[..PROTO_TAG_POS] + full[PROTO_TAG_POS..];
    decryptor := new AesCtr(ctr(decKeyIv[..32], decKeyIv[32..]), 0);
  }

  /** What a sender puts on the wire: only the bytes from the tag on are encrypted. */
  function Obfuscated(ctr: CtrFn, keyIv: seq<byte>, nonce: Nonce): Nonce
    requires |keyIv| == KEY_LEN + IV_LEN
  {
    nonce[..PROTO_TAG_POS] + Cipher(KeystreamOf(ctr, keyIv), 0, nonce)[PROTO_TAG_POS..]
  }

  /** A receiver that decrypts all 64 bytes with the same key recovers tag and datacenter, and the
      stream behind the handshake continues at position 64 on both sides. */
  lemma ReceiverRecovers(ctr: CtrFn, keyIv: seq<byte>, nonce: Nonce, stream: seq<byte>)
    requires |keyIv| == KEY_LEN + IV_LEN
    ensures var ks := KeystreamOf(ctr, keyIv);
            var wire := Obfuscated(ctr, keyIv, nonce);
            && KeyIv(wire) == KeyIv(nonce)
            && Cipher(ks, 0, wire)[PROTO_TAG_POS..] == nonce[PROTO_TAG_POS..]
            && Cipher(ks, 0, wire + Cipher(ks, HANDSHAKE_LEN, stream))[HANDSHAKE_LEN..] == stream
  {
    var ks, wire := KeystreamOf(ctr, keyIv), Obfuscated(ctr, keyIv, nonce);
    CipherInvolutive(ks, 0, nonce);
    CipherInvolutive(ks, HANDSHAKE_LEN, stream);
    var sealed := Cipher(ks, 0, nonce);
    assert forall i :: PROTO_TAG_POS <= i < HANDSHAKE_LEN ==> wire[i] == sealed[i];
    assert forall i :: PROTO_TAG_POS <= i < HANDSHAKE_LEN ==> Cipher(ks, 0, wire)[i] == Cipher(ks, 0, sealed)[i];
    CipherConcat(ks, 0, wire, Cipher(ks, HANDSHAKE_LEN, stream));
  }

  // ---- Accepting a client ----

  type Digest = d: seq<byte> | |d| == KEY_LEN witness seq(KEY_LEN, _ => 0)
  type Sha = seq<byte> -> Digest

  datatype Modes = Modes(classic: bool, secure: bool, tls: bool)

  predicate ModeOk(modes: Modes, tag: ProtoTag) {
    if tag.Secure? then modes.tls || modes.secure else modes.classic
  }

  /** Key and IV of client traffic: the 32 bytes of pre-key are hashed with the user's secret. */
  function ClientKeyIv(sha: Sha, keyIv: seq<byte>, secret: seq<byte>): (r: seq<byte>)
    requires |keyIv| == KEY_LEN + IV_LEN
    ensures |r| == KEY_LEN + IV_LEN
  {
    sha(keyIv[..KEY_LEN] + secret) + keyIv[KEY_LEN..]
  }

  lemma Assembled(sha: Sha, keyIv: seq<byte>, secret: seq<byte>)
    requires |keyIv| == KEY_LEN + IV_LEN
    ensures var key, iv := sha(keyIv[..KEY_LEN] + secret), keyIv[KEY_LEN..];
            var all := ClientKeyIv(sha, keyIv, secret);
            all == key + iv && all[..KEY_LEN] == key && all[KEY_LEN..] == iv
  {
  }

  /** The handshake as user `secret` would have to read it. */
  function Opened(ctr: CtrFn, sha: Sha, h: Nonce, secret: seq<byte>): Nonce {
    Cipher(KeystreamOf(ctr, ClientKeyIv(sha, KeyIv(h), secret)), 0, h)
  }

  /** The tag that makes `h` a handshake of this user; a secret that is not valid hex never does. */
  function Recognised(ctr: CtrFn, sha: Sha, modes: Modes, h: Nonce, user: Option<seq<byte>>): Option<ProtoTag> {
    if user.None? then None
    else
      var tag := TagOf(Opened(ctr, sha, h, user.value)[PROTO_TAG_POS..DC_IDX_POS]);
      if tag.Some? && ModeOk(modes, tag.value) then tag else None
  }

  datatype Accepted = Accepted(user: nat, tag: ProtoTag, dc: seq<byte>, encKeyIv: seq<byte>,
                               decryptor: AesCtr, encryptor: AesCtr)

  /** The first user whose secret makes sense of the handshake is taken; the decryptor has run over the
      handshake, the encryptor uses the reversed key material from its start. */
  method AcceptHandshake(ctr: CtrFn, sha: Sha, modes: Modes, h: Nonce, users: seq<Option<seq<byte>>>, replayed: bool)
    returns (r: Option<Accepted>)
    ensures r.None? <==> replayed || forall u :: u in users ==> Recognised(ctr, sha, modes, h, u).None?
    ensures r.Some? ==>
              var a := r.value;
              && a.user < |users| && Recognised(ctr, sha, modes, h, users[a.user]) == Some(a.tag)
              && (forall v :: 0 <= v < a.user ==> Recognised(ctr, sha, modes, h, users[v]).None?)
              && var secret := users[a.user].value;
                 && a.dc == Opened(ctr, sha, h, secret)[DC_IDX_POS..DC_IDX_POS + 2]
                 && a.decryptor.ks == KeystreamOf(ctr, ClientKeyIv(sha, KeyIv(h), secret))
                 && a.decryptor.pos == HANDSHAKE_LEN
                 && a.encKeyIv == ClientKeyIv(sha, Reverse(KeyIv(h)), secret)
                 && a.encryptor.ks == KeystreamOf(ctr, a.encKeyIv)
                 && a.encryptor.pos == 0
    ensures r.Some? ==> fresh(r.value.decryptor) && fresh(r.value.encryptor) && r.value.decryptor != r.value.encryptor
  {
    if replayed {
      return None;
    }
    for u := 0 to |users|
      invariant forall v :: 0 <= v < u ==> Recognised(ctr, sha, modes, h, users[v]).None?
    {
      if users[u].Some? {
        var secret := users[u].value;
        var prekeyIv := h[8..56];
        var decKey := sha(prekeyIv[..32] + secret);
        Assembled(sha, prekeyIv, secret);
        var decryptor := new AesCtr(ctr(decKey, prekeyIv[32..]), 0);
        var plain := decryptor.Apply(h);
        var tag := TagOf(plain[PROTO_TAG_POS..DC_IDX_POS]);
        var modeOk := match tag {
          case Some(Secure) => modes.tls || modes.secure
          case Some(_) => modes.classic
          case None => false
        };
        if modeOk {
          var reversed := Reverse(prekeyIv);
          var encKey := sha(reversed[..32] + secret);
          Assembled(sha, reversed, secret);
          var encKeyIv := encKey + reversed[32..];
          var encryptor := new AesCtr(ctr(encKey, reversed[32..]), 0);
          assert users[u] in users;
          return Some(Accepted(u, tag.value, plain[DC_IDX_POS..DC_IDX_POS + 2], encKeyIv, decryptor, encryptor));
        }
      }
    }
    r := None;
  }

  /** A client that encrypts its nonce under its secret is recognised with its own tag and datacenter. */
  lemma ClientIsRecognised(ctr: CtrFn, sha: Sha, modes: Modes, nonce: Nonce, tag: ProtoTag, secret: seq<byte>)
    requires nonce[PROTO_TAG_POS..DC_IDX_POS] == TagBytes(tag) && ModeOk(modes, tag)
    ensures var h := Obfuscated(ctr, ClientKeyIv(sha, KeyIv(nonce), secret), nonce);
            && Recognised(ctr, sha, modes, h, Some(secret)) == Some(tag)
            && Opened(ctr, sha, h, secret)[DC_IDX_POS..] == nonce[DC_IDX_POS..]
  {
    hide Cipher, KeystreamOf, Obfuscated;
    var keyIv := ClientKeyIv(sha, KeyIv(nonce), secret);
    var h := Obfuscated(ctr, keyIv, nonce);
    ReceiverRecovers(ctr, keyIv, nonce, []);
    var plain := Opened(ctr, sha, h, secret);
    assert plain[PROTO_TAG_POS..] == nonce[PROTO_TAG_POS..];
    assert plain[PROTO_TAG_POS..DC_IDX_POS] == plain[PROTO_TAG_POS..][..4] == TagBytes(tag);
    assert plain[DC_IDX_POS..] == plain[PROTO_TAG_POS..][4..] == nonce[DC_IDX_POS..];
    TagRoundTrip(tag, plain[PROTO_TAG_POS..DC_IDX_POS]);
  }
}
