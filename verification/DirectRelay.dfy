/** A direct connection from the client's handshake on: the client is accepted, a nonce is sent to
    Telegram, and what Telegram sends back is relayed to the client (src/proxy/handshake.rs,
    src/proxy/direct_relay.rs, src/proxy/relay.rs). */
module DirectRelay {
  import opened Bytes
  import opened Io
  import opened Ctr
  import FrameCodec
  import opened CryptoWriters
  import opened CryptoReaders
  import opened Handshake
  import Pipe

  /** What the network and the copy loop do: Telegram's bytes arrive, the loop reads some, offers up
      to `n` of the bytes it holds to the client's writer, or flushes it. */
  datatype Op = Arrive(data: seq<byte>) | Read(max: nat) | Write(n: nat) | Flush
  datatype Outcome = Arrived | Got(r: Poll<seq<byte>>) | Wrote(w: Poll<nat>) | Flushed(f: Poll<()>)

  /** Everything Telegram sent, as it was sent. */
  function Sent(ops: seq<Op>): seq<byte> {
    if ops == [] then []
    else Sent(ops[..|ops| - 1]) + if ops[|ops| - 1].Arrive? then ops[|ops| - 1].data else []
  }

  /** How many bytes one step read, and how many it passed on. */
  function Length(out: Outcome): nat {
    if out.Got? && out.r.Ready? then |out.r.value| else 0
  }

  function Passed(out: Outcome): nat {
    if out.Wrote? && out.w.Ready? then out.w.value else 0
  }

  /** How many bytes the copy loop read, and how many it passed on. */
  function Fetched(outs: seq<Outcome>): nat {
    if outs == [] then 0
    else Fetched(outs[..|outs| - 1]) + Length(outs[|outs| - 1])
  }

  function Relayed(outs: seq<Outcome>): nat {
    if outs == [] then 0
    else Relayed(outs[..|outs| - 1]) + Passed(outs[|outs| - 1])
  }

  lemma SentSnoc(ops: seq<Op>, op: Op)
    ensures Sent(ops + [op]) == Sent(ops) + if op.Arrive? then op.data else []
  {
    assert (ops + [op])[..|ops|] == ops;
  }

  lemma CountSnoc(outs: seq<Outcome>, out: Outcome)
    ensures Fetched(outs + [out]) == Fetched(outs) + Length(out)
    ensures Relayed(outs + [out]) == Relayed(outs) + Passed(out)
  {
    assert (outs + [out])[..|outs|] == outs;
  }

  /** The relay's invariant: plaintext passed on and plaintext held are the plaintext read, both
      ciphers started with their streams, and the Telegram side is a plain socket. */
  ghost predicate Relaying(r: CryptoReader, w: CryptoWriter, held: seq<byte>)
    reads r, r.Repr(), w, w.Repr()
  {
    && r.Valid() && w.Valid()
    && r.start == 0 && w.start == 0 && r.upstream.tls == null
    && w.accepted + held == r.delivered
  }

  /** Under the two keys the client reads a prefix of what Telegram wrote. */
  lemma ClientReadsPrefix(r: CryptoReader, w: CryptoWriter, held: seq<byte>)
    requires Relaying(r, w, held)
    ensures Cipher(w.encryptor.ks, 0, w.upstream.OnWire()) <= Cipher(r.decryptor.ks, 0, r.upstream.wire.arrived)
  {
    var outer := w.encryptor.ks;
    w.upstream.OnWireIsPrefix();
    CipherPrefix(outer, 0, w.upstream.OnWire(), w.produced);
    CipherInvolutive(outer, 0, w.accepted);
    r.upstream.GivenIsPrefix();
    CipherPrefix(r.decryptor.ks, 0, r.upstream.given, r.upstream.wire.arrived);
  }

  /** Under one and the same key the client's wire carries Telegram's own bytes. */
  lemma FastModeIsTransparent(r: CryptoReader, w: CryptoWriter, held: seq<byte>)
    requires Relaying(r, w, held) && r.decryptor.ks == w.encryptor.ks
    ensures w.upstream.OnWire() <= r.upstream.wire.arrived
    ensures |w.accepted| <= |r.upstream.wire.arrived|
    ensures Cipher(w.encryptor.ks, 0, w.accepted) == r.upstream.wire.arrived[..|w.accepted|]
  {
    var ks, given, arrived := w.encryptor.ks, r.upstream.given, r.upstream.wire.arrived;
    r.upstream.GivenIsPrefix();
    CipherInvolutive(ks, 0, given);
    CipherPrefix(ks, 0, w.accepted, Cipher(ks, 0, given));
    w.upstream.OnWireIsPrefix();
  }

  /** What was agreed before the relay starts. `hello` is what Telegram received. */
  datatype Session = Session(user: nat, tag: FrameCodec.ProtoTag, nonce: Nonce, hello: Nonce)
  datatype Link = Link(session: Session, r: CryptoReader, w: CryptoWriter)

  /** How a session follows from the client's handshake: the first user whose secret opens it, and
      a nonce that passes its tag and datacenter on to Telegram. */
  ghost predicate Agreed(ctr: CtrFn, sha: Sha, modes: Modes, h: Nonce, users: seq<Option<seq<byte>>>, s: Session) {
    && s.user < |users| && Recognised(ctr, sha, modes, h, users[s.user]) == Some(s.tag)
    && (forall v :: 0 <= v < s.user ==> Recognised(ctr, sha, modes, h, users[v]).None?)
    && !Reserved(s.nonce)
    && s.nonce[PROTO_TAG_POS..DC_IDX_POS] == TagBytes(s.tag)
    && s.nonce[DC_IDX_POS..DC_IDX_POS + 2] == Opened(ctr, sha, h, users[s.user].value)[DC_IDX_POS..DC_IDX_POS + 2]
    && s.hello == Obfuscated(ctr, KeyIv(s.nonce), s.nonce)
  }

  /** The keystream client and proxy share for traffic to the client. */
  function ClientStream(ctr: CtrFn, sha: Sha, h: Nonce, secret: seq<byte>): Keystream {
    KeystreamOf(ctr, ClientKeyIv(sha, Reverse(KeyIv(h)), secret))
  }

  /** The keystream Telegram and proxy share for traffic from Telegram. */
  function TelegramStream(ctr: CtrFn, nonce: Nonce): Keystream {
    KeystreamOf(ctr, Reverse(KeyIv(nonce)))
  }

  /** The client's half: its handshake is accepted and its writer encrypts from the start. */
  method AcceptClient(ctr: CtrFn, sha: Sha, modes: Modes, h: Nonce, users: seq<Option<seq<byte>>>, replayed: bool,
                      clientTls: bool, script: seq<Answer>, maxPending: nat)
    returns (a: Option<Accepted>, w: CryptoWriter?)
    ensures a.None? <==> replayed || forall u :: u in users ==> Recognised(ctr, sha, modes, h, u).None?
    ensures a.Some? ==>
              && a.value.user < |users| && Recognised(ctr, sha, modes, h, users[a.value.user]) == Some(a.value.tag)
              && (forall v :: 0 <= v < a.value.user ==> Recognised(ctr, sha, modes, h, users[v]).None?)
              && var secret := users[a.value.user].value;
                 && a.value.dc == Opened(ctr, sha, h, secret)[DC_IDX_POS..DC_IDX_POS + 2]
                 && a.value.encKeyIv == ClientKeyIv(sha, Reverse(KeyIv(h)), secret)
                 && w != null && w.Valid() && fresh(w.Repr()) && w.accepted == [] && w.start == 0
                 && (w.upstream.tls != null) == clientTls
                 && w.encryptor.ks == KeystreamOf(ctr, a.value.encKeyIv)
  {
    hide Recognised, Opened, KeystreamOf, ClientKeyIv, CryptoWriter.Valid;
    a := AcceptHandshake(ctr, sha, modes, h, users, replayed);
    w := null;
    if a.Some? {
      w := new CryptoWriter(clientTls, script, a.value.encryptor, maxPending);
    }
  }

  /** Telegram's half: a nonce is drawn and sent, and the reader decrypts from the start. In fast mode
      with the client's own key. */
  method ReachTelegram(ctr: CtrFn, tag: FrameCodec.ProtoTag, dc: seq<byte>, clientKeyIv: seq<byte>, fast: bool,
                       draws: seq<Nonce>, script: seq<Answer>)
    returns (keys: Option<TgKeys>, hello: Nonce, r: CryptoReader?)
    requires |dc| == 2 && |clientKeyIv| == KEY_LEN + IV_LEN
    ensures keys.None? <==> forall d :: d in draws ==> Reserved(d)
    ensures keys.Some? ==>
              && var nonce := keys.value.nonce;
                 && !Reserved(nonce)
                 && nonce[PROTO_TAG_POS..DC_IDX_POS] == TagBytes(tag) && nonce[DC_IDX_POS..DC_IDX_POS + 2] == dc
                 && hello == Obfuscated(ctr, KeyIv(nonce), nonce)
                 && r != null && r.Valid() && fresh(r.Repr()) && r.delivered == [] && r.start == 0
                 && r.upstream.tls == null && r.upstream.wire.arrived == []
                 && r.decryptor.ks == TelegramStream(ctr, nonce)
                 && (fast ==> r.decryptor.ks == KeystreamOf(ctr, clientKeyIv))
  {
    hide Obfuscated, KeystreamOf, Filled, Reserved, TagBytes, CryptoReader.Valid;
    keys := GenerateTgNonce(tag, dc, clientKeyIv, fast, draws);
    r, hello := null, seq(HANDSHAKE_LEN, _ => 0);
    if keys.Some? {
      var encryptor, decryptor;
      hello, encryptor, decryptor := EncryptTgNonce(ctr, keys.value.nonce);
      r := new CryptoReader(false, script, decryptor);
    }
  }

  /** From the client's 64 bytes to both ends of the relay. */
  method Connect(ctr: CtrFn, sha: Sha, modes: Modes, h: Nonce, users: seq<Option<seq<byte>>>, replayed: bool,
                 fast: bool, draws: seq<Nonce>, clientTls: bool, clientScript: seq<Answer>, tgScript: seq<Answer>,
                 maxPending: nat)
    returns (link: Option<Link>)
    ensures link.None? <==> || replayed || (forall u :: u in users ==> Recognised(ctr, sha, modes, h, u).None?)
                            || (forall d :: d in draws ==> Reserved(d))
    ensures link.Some? ==>
              var Link(s, r, w) := link.value;
              && Agreed(ctr, sha, modes, h, users, s)
              && Relaying(r, w, []) && r.Repr() !! w.Repr() && fresh(r.Repr()) && fresh(w.Repr())
              && r.upstream.wire.arrived == [] && w.accepted == []
              && (w.upstream.tls != null) == clientTls
              && w.encryptor.ks == ClientStream(ctr, sha, h, users[s.user].value)
              && r.decryptor.ks == TelegramStream(ctr, s.nonce)
              && (fast ==> r.decryptor.ks == w.encryptor.ks)
  {
    hide Recognised, Opened, Obfuscated, KeystreamOf, ClientKeyIv, Reserved, TagBytes, TelegramStream;
    hide CryptoReader.Valid, CryptoWriter.Valid;
    var a, w := AcceptClient(ctr, sha, modes, h, users, replayed, clientTls, clientScript, maxPending);
    if a.None? {
      return None;
    }
    var c := a.value;
    var keys, hello, r := ReachTelegram(ctr, c.tag, c.dc, c.encKeyIv, fast, draws, tgScript);
    if keys.None? {
      return None;
    }
    link := Some(Link(Session(c.user, c.tag, keys.value.nonce, hello), r, w));
  }

  predicate Fits(op: Op, out: Outcome) {
    match op
    case Arrive(_) => out.Arrived?
    case Read(max) => out.Got? && (out.r.Ready? ==> |out.r.value| <= max)
    case Write(n) => out.Wrote? && (out.w.Ready? ==> out.w.value <= n)
    case Flush => out.Flushed?
  }

  predicate AllFit(ops: seq<Op>, outs: seq<Outcome>) {
    |ops| == |outs| && forall i :: 0 <= i < |ops| ==> Fits(ops[i], outs[i])
  }

  /** Telegram's bytes arrive, or the copy loop reads some. */
  method TelegramSide(op: Op, r: CryptoReader, w: CryptoWriter, held: seq<byte>) returns (out: Outcome, left: seq<byte>)
    requires op.Arrive? || op.Read?
    requires Relaying(r, w, held) && r.Repr() !! w.Repr()
    modifies r.Repr()
    ensures Relaying(r, w, left) && fresh(r.Repr() - old(r.Repr()))
    ensures Fits(op, out)
    ensures r.upstream.wire.arrived == old(r.upstream.wire.arrived) + if op.Arrive? then op.data else []
    ensures |r.delivered| == |old(r.delivered)| + Length(out)
    ensures op.Read? && op.max > 0 && !old(r.state.Poisoned?) ==>
              r.Answered(out.r, old(r.Left()), old(r.upstream.Alerted()), old(r.upstream.wire.polls))
  {
    hide CryptoReader.Valid, CryptoWriter.Valid, CryptoReader.Answered, CryptoReader.Left;
    left := held;
    if op.Arrive? {
      r.Arrive(op.data);
      out := Arrived;
    } else {
      var p := r.PollRead(op.max);
      out := Got(p);
      if p.Ready? {
        left := held + p.value;
      }
    }
  }

  /** Bytes passed on leave the loop's buffer. */
  lemma PassOn(accepted: seq<byte>, held: seq<byte>, offered: nat, k: nat)
    requires k <= offered <= |held|
    ensures (accepted + held[..offered][..k]) + held[k..] == accepted + held
  {
    assert held[..offered][..k] == held[..k];
  }

  /** The copy loop offers what it holds to the client, or flushes. */
  method ClientSide(op: Op, r: CryptoReader, w: CryptoWriter, held: seq<byte>) returns (out: Outcome, left: seq<byte>)
    requires op.Write? || op.Flush?
    requires Relaying(r, w, held) && r.Repr() !! w.Repr()
    modifies w.Repr()
    ensures Relaying(r, w, left) && fresh(w.Repr() - old(w.Repr()))
    ensures Fits(op, out)
    ensures |w.accepted| == |old(w.accepted)| + Passed(out)
    ensures out == Flushed(Ready(())) ==> w.upstream.OnWire() == Cipher(w.encryptor.ks, 0, w.accepted)
    ensures op.Write? && op.n > 0 && held != [] && out.w.Ready? ==> out.w.value > 0
    ensures op.Write? && out.w.Pending? ==> |w.accepted| >= w.maxPending
  {
    hide CryptoReader.Valid, CryptoWriter.Valid, Cipher;
    left := held;
    if op.Write? {
      var buf := held[..Min(op.n, |held|)];
      var p := w.PollWrite(buf);
      out := Wrote(p);
      if p.Ready? {
        left := held[p.value..];
        PassOn(old(w.accepted), held, |buf|, p.value);
      }
    } else {
      var p := w.PollFlush();
      out := Flushed(p);
    }
  }

  /** One step of the network or the copy loop. */
  method Act(op: Op, r: CryptoReader, w: CryptoWriter, held: seq<byte>) returns (out: Outcome, left: seq<byte>)
    requires Relaying(r, w, held) && r.Repr() !! w.Repr()
    modifies r.Repr(), w.Repr()
    ensures Relaying(r, w, left) && r.Repr() !! w.Repr()
    ensures fresh(r.Repr() - old(r.Repr())) && fresh(w.Repr() - old(w.Repr()))
    ensures Fits(op, out)
    ensures r.upstream.wire.arrived == old(r.upstream.wire.arrived) + if op.Arrive? then op.data else []
    ensures |r.delivered| == |old(r.delivered)| + Length(out)
    ensures |w.accepted| == |old(w.accepted)| + Passed(out)
    ensures out == Flushed(Ready(())) ==> w.upstream.OnWire() == Cipher(w.encryptor.ks, 0, w.accepted)
  {
    hide CryptoReader.Valid, CryptoWriter.Valid, Cipher;
    if op.Arrive? || op.Read? {
      out, left := TelegramSide(op, r, w, held);
    } else {
      out, left := ClientSide(op, r, w, held);
    }
  }

  /** What the last state of a run says about the client's wire. */
  lemma Conclude(r: CryptoReader, w: CryptoWriter, held: seq<byte>, flushed: bool)
    requires Relaying(r, w, held)
    requires flushed ==> w.upstream.OnWire() == Cipher(w.encryptor.ks, 0, w.accepted)
    ensures Carries(w.encryptor.ks, r.decryptor.ks, w.upstream.OnWire(), r.upstream.wire.arrived)
    ensures r.decryptor.ks == w.encryptor.ks ==> w.upstream.OnWire() <= r.upstream.wire.arrived
    ensures |w.accepted| <= |r.delivered| <= |r.upstream.wire.arrived|
    ensures flushed ==> |w.upstream.OnWire()| == |w.accepted|
  {
    hide Cipher;
    ClientReadsPrefix(r, w, held);
    r.upstream.GivenIsPrefix();
    if r.decryptor.ks == w.encryptor.ks {
      FastModeIsTransparent(r, w, held);
    }
  }

  /** Read by the client under its own key, its wire is the start of what Telegram wrote under its. */
  predicate Carries(clientKs: Keystream, telegramKs: Keystream, toClient: seq<byte>, fromTelegram: seq<byte>) {
    Cipher(clientKs, 0, toClient) <= Cipher(telegramKs, 0, fromTelegram)
  }

  /** Every run of a direct connection, from the client's first 64 bytes on. There is none exactly
      when the handshake was replayed, opens under no user's secret, or no usable nonce was drawn.
      Otherwise the client, decrypting its wire, reads the start of what Telegram wrote, and in fast
      mode the wire carries Telegram's own bytes; after a successful flush it carries as many of them as
      the copy loop passed on. */
  method Run(ctr: CtrFn, sha: Sha, modes: Modes, h: Nonce, users: seq<Option<seq<byte>>>, replayed: bool,
             fast: bool, draws: seq<Nonce>, clientTls: bool, clientScript: seq<Answer>, tgScript: seq<Answer>,
             maxPending: nat, ops: seq<Op>)
    returns (session: Option<Session>, outs: seq<Outcome>, wire: seq<byte>)
    ensures session.None? <==> || replayed || (forall u :: u in users ==> Recognised(ctr, sha, modes, h, u).None?)
                               || (forall d :: d in draws ==> Reserved(d))
    ensures session.Some? ==> Agreed(ctr, sha, modes, h, users, session.value) && AllFit(ops, outs)
    ensures session.Some? ==>
              var toClient := Pipe.Extracted(clientTls, wire);
              && Carries(ClientStream(ctr, sha, h, users[session.value.user].value),
                         TelegramStream(ctr, session.value.nonce), toClient, Sent(ops))
              && (fast ==> toClient <= Sent(ops))
              && Relayed(outs) <= Fetched(outs) <= |Sent(ops)|
              && (ops != [] && outs[|ops| - 1] == Flushed(Ready(())) ==> |toClient| == Relayed(outs))
  {
    hide Recognised, Agreed, Relaying, Reserved, ClientStream, TelegramStream, Carries, Cipher;
    hide Sent, Fetched, Relayed, AllFit, CryptoReader.Repr, CryptoWriter.Repr;
    var link := Connect(ctr, sha, modes, h, users, replayed, fast, draws,
                        clientTls, clientScript, tgScript, maxPending);
    if link.None? {
      return None, [], [];
    }
    session := Some(link.value.session);
    outs, wire := Relay(link.value.r, link.value.w, ops);
  }

  /** The copy loop under any schedule. */
  method Relay(r: CryptoReader, w: CryptoWriter, ops: seq<Op>) returns (outs: seq<Outcome>, wire: seq<byte>)
    requires Relaying(r, w, []) && r.Repr() !! w.Repr() && r.upstream.wire.arrived == [] && w.accepted == []
    modifies r.Repr(), w.Repr()
    ensures AllFit(ops, outs)
    ensures var toClient := Pipe.Extracted(w.upstream.tls != null, wire);
            && Carries(w.encryptor.ks, r.decryptor.ks, toClient, Sent(ops))
            && (r.decryptor.ks == w.encryptor.ks ==> toClient <= Sent(ops))
            && Relayed(outs) <= Fetched(outs) <= |Sent(ops)|
            && (ops != [] && outs[|ops| - 1] == Flushed(Ready(())) ==> |toClient| == Relayed(outs))
  {
    hide Relaying, Cipher, Sent, Fetched, Relayed, Fits, Carries;
    outs := [];
    var held: seq<byte> := [];
    ghost var done: seq<Op> := [];
    NothingYet(r, w, held);
    for i := 0 to |ops|
      invariant Relaying(r, w, held) && r.Repr() !! w.Repr()
      invariant fresh(r.Repr() - old(r.Repr())) && fresh(w.Repr() - old(w.Repr()))
      invariant done == ops[..i] && |outs| == i && AllFit(done, outs)
      invariant r.upstream.wire.arrived == Sent(done)
      invariant |r.delivered| == Fetched(outs) && |w.accepted| == Relayed(outs)
      invariant i > 0 && outs[i - 1] == Flushed(Ready(())) ==>
                  w.upstream.OnWire() == Cipher(w.encryptor.ks, 0, w.accepted)
    {
      var out;
      out, held := Act(ops[i], r, w, held);
      SentSnoc(done, ops[i]);
      CountSnoc(outs, out);
      outs, done := outs + [out], done + [ops[i]];
    }
    assert done == ops;
    Conclude(r, w, held, ops != [] && outs[|ops| - 1] == Flushed(Ready(())));
    wire := w.upstream.wire.log;
  }

  lemma NothingYet(r: CryptoReader, w: CryptoWriter, held: seq<byte>)
    requires Relaying(r, w, held) && held == [] && w.accepted == []
    ensures r.delivered == [] && Sent([]) == [] && Fetched([]) == 0 && Relayed([]) == 0
  {
  }
}
