/** `CryptoWriter`: encrypts accepted plaintext with AES-CTR over an upstream that may
    block, take part of a write, or fail (src/stream/crypto_stream.rs). */
module CryptoWriters {
  import opened Bytes
  import opened Io
  import opened Ctr
  import opened AsyncSinks
  import opened TlsRecord

  const COMPACT_THRESHOLD: nat := 16 * 1024
  const DEFAULT_MAX_PENDING: nat := 64 * 1024
  const MIN_MAX_PENDING: nat := 4 * 1024

  /** Ciphertext not yet taken by the upstream; `buf` never outgrows `maxLen`. */
  class PendingCiphertext {
    var buf: seq<byte>
    var pos: nat
    const maxLen: nat

    ghost predicate Valid()
      reads this
    {
      pos <= |buf| <= maxLen
    }

    ghost function Contents(): seq<byte>
      reads this
    {
      if pos <= |buf| then buf[pos..] else []
    }

    constructor (maxLen: nat)
      ensures Valid() && buf == [] && this.maxLen == maxLen
    {
      buf, pos, this.maxLen := [], 0, maxLen;
    }

    function PendingLen(): (n: nat)
      requires Valid()
      reads this
      ensures n == |Contents()|
    {
      |buf| - pos
    }

    function RemainingCapacity(): (n: nat)
      requires Valid()
      reads this
      ensures n + |Contents()| == maxLen
    {
      maxLen - PendingLen()
    }

    method CompactConsumedPrefix()
      requires Valid()
      modifies this
      ensures Valid() && pos == 0 && buf == old(Contents())
    {
      if pos == 0 {
        return;
      }
      if pos >= |buf| {
        buf, pos := [], 0;
        return;
      }
      buf, pos := buf[pos..], 0;
    }

    method Advance(n: nat)
      requires Valid()
      modifies this
      ensures Valid()
      ensures Contents() == old(Contents())[Min(n, |old(Contents())|)..]
    {
      pos := Min(pos + n, |buf|);
      if pos == |buf| || pos >= COMPACT_THRESHOLD {
        CompactConsumedPrefix();
      }
    }

    method ReplaceWith(src: seq<byte>)
      requires |src| <= maxLen
      modifies this
      ensures Valid() && Contents() == src
    {
      buf, pos := src, 0;
    }

    /** Append `plaintext` encrypted in place; refused when it does not fit. */
    method PushEncrypted(encryptor: AesCtr, plaintext: seq<byte>) returns (ok: bool)
      requires Valid()
      modifies this, encryptor
      ensures Valid() && ok == (|plaintext| + |old(Contents())| <= maxLen)
      ensures ok ==> Contents() == old(Contents()) + Cipher(encryptor.ks, old(encryptor.pos), plaintext)
      ensures ok ==> encryptor.pos == old(encryptor.pos) + |plaintext|
      ensures !ok ==> Contents() == old(Contents()) && encryptor.pos == old(encryptor.pos)
    {
      if plaintext == [] {
        return true;
      }
      if |plaintext| > RemainingCapacity() {
        return false;
      }
      if pos > 0 && |buf| + |plaintext| > maxLen {
        CompactConsumedPrefix();
      }
      var c := encryptor.Apply(plaintext);
      assert (buf + c)[pos..] == buf[pos..] + c;
      buf := buf + c;
      return true;
    }
  }

  datatype State =
    | Idle
    | Flushing(pending: PendingCiphertext)
    | Poisoned(error: Option<ErrorKind>)

  /** The pending limit in force: a default for zero, and never below the minimum. */
  function EffectiveLimit(maxPendingWrite: nat): (n: nat)
    ensures maxPendingWrite == 0 ==> n == DEFAULT_MAX_PENDING
    ensures maxPendingWrite > 0 ==> n >= MIN_MAX_PENDING && n >= maxPendingWrite
                                    && (n == MIN_MAX_PENDING || n == maxPendingWrite)
  {
    var m := if maxPendingWrite == 0 then DEFAULT_MAX_PENDING else maxPendingWrite;
    if m < MIN_MAX_PENDING then MIN_MAX_PENDING else m
  }

  class CryptoWriter {
    const upstream: AsyncSink
    const encryptor: AesCtr
    const maxPending: nat
    /** Where the keystream stood when the writer was created. */
    ghost const start: nat
    var state: State
    var scratch: seq<byte>
    /** History: the plaintext accepted so far and the ciphertext made of it. */
    ghost var accepted: seq<byte>
    ghost var produced: seq<byte>

    ghost function Repr(): set<object>
      reads this, upstream
    {
      {this, encryptor, upstream} + upstream.Repr + (if state.Flushing? then {state.pending} else {})
    }

    /** Ciphertext produced and not yet taken by the upstream. */
    ghost function Unsent(): seq<byte>
      reads this, Repr()
    {
      if state.Flushing? then state.pending.Contents() else []
    }

    /** Socket answers left over if each unsent byte took one, and each pending byte six: it may need
        a record of its own. */
    ghost function Slack(): int
      reads this, Repr()
    {
      upstream.Slack() - 6 * |Unsent()|
    }

    ghost predicate Shape()
      reads this, Repr()
    {
      && upstream.Valid()
      && {this, encryptor} !! upstream.Repr
      && (state.Flushing? ==> state.pending.Valid() && state.pending.maxLen == maxPending
                              && state.pending !in upstream.Repr)
      && MIN_MAX_PENDING <= maxPending
    }

    /** The run invariant. While not poisoned, taken plus unsent ciphertext is exactly the
        encryption of all accepted plaintext and the keystream stands at its end; poisoned
        or not, the upstream only ever took a prefix of it. */
    ghost predicate Valid()
      reads this, Repr()
      ensures Valid() ==> upstream.wire in Repr()
    {
      && Shape()
      && produced == Cipher(encryptor.ks, start, accepted)
      && upstream.taken <= produced
      && (!state.Poisoned? ==> upstream.taken + Unsent() == produced && encryptor.pos == start + |accepted|)
      && (state.Poisoned? <==> upstream.fault)
    }

    constructor (overTls: bool, script: seq<Answer>, encryptor: AesCtr, maxPendingWrite: nat)
      ensures Valid() && fresh(Repr() - {encryptor}) && state.Idle?
      ensures this.encryptor == encryptor && start == encryptor.pos
      ensures accepted == [] && (upstream.tls != null) == overTls
      ensures upstream.wire.log == [] && !upstream.Broken()
      ensures maxPending == EffectiveLimit(maxPendingWrite)
    {
      upstream := new AsyncSink(overTls, script);
      this.encryptor := encryptor;
      start := encryptor.pos;
      maxPending := EffectiveLimit(maxPendingWrite);
      state, scratch, accepted, produced := Idle, [], [], [];
    }

    /** The socket underneath goes on by another script. */
    method Answers(script: seq<Answer>)
      requires Valid()
      modifies upstream.wire
      ensures Valid() && upstream.wire.script == script
      ensures upstream.wire.log == old(upstream.wire.log) && upstream.Broken() == old(upstream.Broken())
    {
      hide Cipher;
      upstream.wire.Answers(script);
    }

    /** What is still to be sent, and what was, is at most six bytes for each accepted one. */
    lemma SixForOne()
      requires Valid() && !state.Poisoned? && !upstream.Broken()
      ensures |upstream.wire.script| - Slack() <= 6 * |accepted|
      ensures |upstream.wire.log| <= 6 * |accepted|
    {
      hide Cipher, AppPayload, Complete;
    }

    /** The stored error first, a generic one afterwards. */
    method TakePoisonError() returns (kind: ErrorKind)
      requires state.Poisoned?
      modifies this`state
      ensures state == Poisoned(None)
      ensures kind == if old(state).error.Some? then old(state).error.value else Other
    {
      kind := if state.error.Some? then state.error.value else Other;
      state := Poisoned(None);
    }

    /** Offer the pending ciphertext to the upstream once. */
    method FlushOnce() returns (r: Poll<()>)
      requires Valid() && state.Flushing? && Unsent() != []
      modifies Repr()
      ensures Valid() && fresh(Repr() - old(Repr()))
      ensures accepted == old(accepted) && produced == old(produced) && encryptor.pos == old(encryptor.pos)
      ensures r.Fail? ==> state.Poisoned?
      ensures !r.Fail? ==> state == old(state)
      ensures r.Pending? ==> Unsent() == old(Unsent())
      ensures r.Pending? ==> upstream.wire.blocked && upstream.wire.polls > old(upstream.wire.polls)
      ensures r.Ready? ==> |Unsent()| < |old(Unsent())| && upstream.wire.polls > old(upstream.wire.polls)
      ensures old(upstream.wire.log) <= upstream.wire.log
      ensures old(upstream.wire.polls) <= upstream.wire.polls
      ensures !old(upstream.Broken()) && r.Fail? ==> upstream.Refused(old(upstream.wire.polls))
      ensures !r.Fail? ==> !upstream.Broken()
      ensures Obliging(old(upstream.wire.script)) ==> Obliging(upstream.wire.script)
      ensures !old(upstream.Broken()) && Obliging(old(upstream.wire.script)) && old(Slack()) > 0 ==>
                r.Ready? && Slack() >= old(Slack())
    {
      hide AsyncSink.Valid, AsyncSink.Broken, AsyncSink.Slack, Cipher;
      var pending := state.pending;
      var data := pending.buf[pending.pos..];
      ghost var before := upstream.taken;
      assert before + data == produced;
      var w := upstream.PollWrite(data);
      match w {
        case Pending =>
          r := Pending;
        case Fail(kind) =>
          state := Poisoned(Some(kind));
          r := Fail(kind);
        case Ready(n) =>
          if n == 0 {
            state := Poisoned(Some(WriteZero));
            r := Fail(WriteZero);
          } else {
            SplitAppend(before, data, n);
            pending.Advance(n);
            assert Unsent() == data[n..];
            r := Ready(());
          }
      }
    }

    method PollFlushPending() returns (r: Poll<()>)
      requires Valid()
      modifies Repr()
      ensures Valid() && fresh(Repr() - old(Repr()))
      ensures accepted == old(accepted) && produced == old(produced) && encryptor.pos == old(encryptor.pos)
      ensures r.Ready? ==> state.Idle?
      ensures r.Pending? ==> state == old(state) && state.Flushing?
      ensures r.Pending? ==> upstream.wire.blocked && upstream.wire.polls > old(upstream.wire.polls)
      ensures r.Fail? <==> state.Poisoned?
      ensures |Unsent()| <= |old(Unsent())|
      ensures old(upstream.wire.log) <= upstream.wire.log
      ensures old(upstream.wire.polls) <= upstream.wire.polls
      ensures !old(state).Poisoned? && !old(upstream.Broken()) && r.Fail? ==> upstream.Refused(old(upstream.wire.polls))
      ensures !old(upstream.Broken()) && !r.Fail? ==> !upstream.Broken()
      ensures !old(state).Poisoned? && old(Unsent()) != [] && !r.Fail? ==>
                upstream.wire.polls > old(upstream.wire.polls)
      ensures upstream.Broken() ==> old(upstream.Broken()) || r.Fail?
      ensures Obliging(old(upstream.wire.script)) ==> Obliging(upstream.wire.script)
      ensures !old(state).Poisoned? && !old(upstream.Broken())
              && Obliging(old(upstream.wire.script)) && old(Slack()) > 0 ==>
                r.Ready? && Slack() >= old(Slack())
    {
      hide AsyncSink.Valid, AsyncSink.Broken, AsyncSink.Slack, Cipher;
      if state.Poisoned? {
        var kind := TakePoisonError();
        return Fail(kind);
      }
      while state.Flushing?
        invariant Valid() && fresh(Repr() - old(Repr()))
        invariant accepted == old(accepted) && produced == old(produced) && encryptor.pos == old(encryptor.pos)
        invariant state == old(state) && !state.Poisoned?
        invariant |Unsent()| <= |old(Unsent())|
        invariant old(upstream.wire.log) <= upstream.wire.log
        invariant old(upstream.wire.polls) <= upstream.wire.polls
        invariant !old(upstream.Broken()) ==> !upstream.Broken()
        invariant Unsent() != old(Unsent()) ==> upstream.wire.polls > old(upstream.wire.polls)
        invariant Obliging(old(upstream.wire.script)) ==> Obliging(upstream.wire.script)
        invariant !old(upstream.Broken()) && Obliging(old(upstream.wire.script)) && old(Slack()) > 0 ==>
                    Slack() >= old(Slack())
        decreases |Unsent()|
      {
        if state.pending.PendingLen() == 0 {
          state := Idle;
          return Ready(());
        }
        r := FlushOnce();
        if !r.Ready? {
          return;
        }
      }
      r := Ready(());
    }

    /** Account for `plaintext`, whose ciphertext now ends the pending bytes. */
    ghost method Credit(plaintext: seq<byte>)
      requires Shape() && state.Flushing? && !upstream.fault
      requires produced == Cipher(encryptor.ks, start, accepted)
      requires upstream.taken <= produced
      requires upstream.taken + Unsent() == produced + Cipher(encryptor.ks, start + |accepted|, plaintext)
      requires encryptor.pos == start + |accepted| + |plaintext|
      modifies this`accepted, this`produced
      ensures Valid()
      ensures accepted == old(accepted) + plaintext
    {
      hide AsyncSink.Valid, AsyncSink.Broken, AsyncSink.Slack, Cipher;
      CipherConcat(encryptor.ks, start, accepted, plaintext);
      produced := produced + Cipher(encryptor.ks, start + |accepted|, plaintext);
      accepted := accepted + plaintext;
    }

    /** Upstream blocked: encrypt as much of `buf` as still fits behind the pending bytes. */
    method AcceptIntoPending(buf: seq<byte>) returns (r: Poll<nat>)
      requires Valid() && state.Flushing? && buf != []
      modifies this`accepted, this`produced, encryptor, state.pending
      ensures Valid()
      ensures r.Ready? ==> 0 < r.value <= |buf| && accepted == old(accepted) + buf[..r.value]
      ensures r.Ready? ==> r.value == |buf| || |Unsent()| == maxPending
      ensures !r.Ready? ==> r.Pending? && accepted == old(accepted) && |Unsent()| == maxPending
    {
      hide AsyncSink.Valid, AsyncSink.Broken, AsyncSink.Slack, Cipher;
      var toAccept: nat := Min(|buf|, state.pending.RemainingCapacity());
      if toAccept == 0 {
        return Pending;
      }
      ghost var c := Cipher(encryptor.ks, encryptor.pos, buf[..toAccept]);
      ghost var unsent := Unsent();
      var ok := state.pending.PushEncrypted(encryptor, buf[..toAccept]);
      assert upstream.taken + (unsent + c) == (upstream.taken + unsent) + c;
      Credit(buf[..toAccept]);
      r := Ready(toAccept);
    }

    method EncryptIntoScratch(plaintext: seq<byte>)
      modifies this`scratch, encryptor
      ensures scratch == Cipher(encryptor.ks, old(encryptor.pos), plaintext)
      ensures encryptor.pos == old(encryptor.pos) + |plaintext|
    {
      scratch := encryptor.Apply(plaintext);
    }

    /** Keep ciphertext the upstream did not take. */
    method Buffer(ciphertext: seq<byte>)
      requires |ciphertext| <= maxPending
      modifies this`state
      ensures state.Flushing? && fresh(state.pending)
      ensures state.pending.Valid() && state.pending.maxLen == maxPending
      ensures state.pending.Contents() == ciphertext
    {
      var pending := new PendingCiphertext(maxPending);
      state := Flushing(pending);
      pending.ReplaceWith(ciphertext);
    }

    /** Account for `plaintext`, whose ciphertext `data` the upstream took up to `n`. */
    method Absorb(plaintext: seq<byte>, data: seq<byte>, n: nat)
      requires Shape() && state.Idle? && !upstream.fault
      requires data == Cipher(encryptor.ks, start + |accepted|, plaintext) && n <= |data| <= maxPending
      requires produced == Cipher(encryptor.ks, start, accepted)
      requires upstream.taken == produced + data[..n] && encryptor.pos == start + |accepted| + |plaintext|
      modifies this
      ensures Valid() && fresh(Repr() - old(Repr())) && !state.Poisoned?
      ensures accepted == old(accepted) + plaintext
    {
      hide AsyncSink.Valid, AsyncSink.Broken, AsyncSink.Slack, Cipher;
      CipherConcat(encryptor.ks, start, accepted, plaintext);
      SplitAppend(produced, data, n);
      accepted, produced, scratch := accepted + plaintext, produced + data, [];
      if n < |data| {
        Buffer(data[n..]);
      }
    }

    /** Nothing pending: encrypt and write through. */
    method WriteThrough(buf: seq<byte>) returns (r: Poll<nat>)
      requires Valid() && state.Idle? && buf != []
      modifies Repr()
      ensures Valid() && fresh(Repr() - old(Repr()))
      ensures r == Ready(Min(|buf|, maxPending)) || r.Fail?
      ensures r.Ready? ==> accepted == old(accepted) + buf[..r.value]
      ensures r.Fail? ==> accepted == old(accepted)
      ensures r.Fail? <==> state.Poisoned?
      ensures old(upstream.wire.log) <= upstream.wire.log
      ensures old(upstream.wire.polls) <= upstream.wire.polls
      ensures !old(upstream.Broken()) ==> upstream.wire.polls > old(upstream.wire.polls)
      ensures upstream.Broken() ==> r.Fail?
      ensures !old(upstream.Broken()) && r.Fail? ==> upstream.Refused(old(upstream.wire.polls))
    {
      hide AsyncSink.Valid, AsyncSink.Broken, AsyncSink.Slack, Cipher;
      var toAccept: nat := Min(|buf|, maxPending);
      var plaintext := buf[..toAccept];
      EncryptIntoScratch(plaintext);
      assert upstream.taken == produced;
      var w := upstream.PollWrite(scratch);
      if w.Fail? || w == Ready(0) {
        var kind := if w.Fail? then w.kind else WriteZero;
        state := Poisoned(Some(kind));
        return Fail(kind);
      }
      Absorb(plaintext, scratch, if w.Ready? then w.value else 0);
      r := Ready(toAccept);
    }

    /** Ready(n): the first n bytes of `buf` are accepted, their ciphertext taken or kept.
        Pending: nothing accepted, the buffer is full and the socket blocks. */
    method PollWrite(buf: seq<byte>) returns (r: Poll<nat>)
      requires Valid()
      modifies Repr()
      ensures Valid() && fresh(Repr() - old(Repr()))
      ensures r.Ready? ==> r.value <= |buf| && accepted == old(accepted) + buf[..r.value]
      ensures !r.Ready? ==> accepted == old(accepted)
      ensures r.Fail? <==> state.Poisoned?
      ensures r.Ready? && buf != [] ==> r.value > 0
      ensures r.Ready? && r.value < |buf| ==> |Unsent()| == maxPending || r.value == maxPending
      ensures r.Pending? ==> |Unsent()| == maxPending <= |accepted|
      ensures r.Pending? ==> upstream.wire.blocked && upstream.wire.polls > old(upstream.wire.polls)
      ensures old(upstream.wire.log) <= upstream.wire.log
      ensures !old(state).Poisoned? && !old(upstream.Broken()) && r.Fail? ==> upstream.Refused(old(upstream.wire.polls))
      ensures !old(state).Poisoned? && !old(upstream.Broken()) && buf != [] ==>
                upstream.wire.polls > old(upstream.wire.polls)
      ensures upstream.Broken() ==> old(upstream.Broken()) || r.Fail?
    {
      hide AsyncSink.Valid, AsyncSink.Broken, AsyncSink.Slack, Cipher;
      if state.Poisoned? {
        var kind := TakePoisonError();
        return Fail(kind);
      }
      if buf == [] {
        return Ready(0);
      }
      if state.Flushing? {
        var f := PollFlushPending();
        if f.Fail? {
          return Fail(f.kind);
        }
        if f.Pending? {
          r := AcceptIntoPending(buf);
          return;
        }
      }
      r := WriteThrough(buf);
    }

    /** Ready: nothing is pending and the wire carries the encryption of all accepted bytes. */
    method PollFlush() returns (r: Poll<()>)
      requires Valid()
      modifies Repr()
      ensures Valid() && fresh(Repr() - old(Repr()))
      ensures accepted == old(accepted)
      ensures r.Ready? ==> state.Idle? && upstream.OnWire() == Cipher(encryptor.ks, start, accepted)
      ensures r.Pending? ==> upstream.wire.blocked && upstream.wire.polls > old(upstream.wire.polls)
      ensures state.Poisoned? ==> r.Fail?
      ensures old(upstream.wire.log) <= upstream.wire.log
      ensures r.Ready? ==> upstream.wire.polls > old(upstream.wire.polls)
                           && (upstream.tls != null ==> Complete(upstream.wire.log))
      ensures upstream.Broken() ==> !r.Ready? && (old(upstream.Broken()) || r.Fail?)
      ensures !old(state).Poisoned? && !old(upstream.Broken())
              && Obliging(old(upstream.wire.script)) && old(Slack()) > 0 ==>
                r.Ready?
      ensures !old(state).Poisoned? && !old(upstream.Broken()) && r.Fail? ==> upstream.Refused(old(upstream.wire.polls))
    {
      hide AsyncSink.Valid, AsyncSink.Broken, AsyncSink.Slack, Cipher;
      r := PollFlushPending();
      if r.Ready? {
        r := upstream.PollFlush();
      }
    }
  }
}
