/** `CryptoReader`: decrypts whatever its upstream delivers (src/stream/crypto_stream.rs). */
module CryptoReaders {
  import opened Bytes
  import opened Io
  import opened Ctr
  import opened StreamBuffers
  import opened AsyncSources

  datatype State =
    | Idle
    | Yielding(buffer: YieldBuffer)
    | Poisoned(error: Option<ErrorKind>)

  class CryptoReader {
    const upstream: AsyncSource
    const decryptor: AesCtr
    /** Where the keystream stood when the reader was created. */
    ghost const start: nat
    var state: State
    /** History: plaintext handed to the caller, and decrypted plaintext still held. */
    ghost var delivered: seq<byte>
    ghost var undelivered: seq<byte>

    ghost function Repr(): set<object>
      reads this, upstream
    {
      {this, decryptor, upstream} + upstream.Repr + (if state.Yielding? then {state.buffer} else {})
    }

    /** The run invariant: delivered and held plaintext is the decryption of everything the
        upstream gave, and the keystream stands at its end. */
    ghost predicate Valid()
      reads this, Repr()
      ensures Valid() ==> upstream.wire in Repr()
    {
      && upstream.Valid() && {this, decryptor} !! upstream.Repr
      && (state.Yielding? ==> state.buffer.Valid() && state.buffer !in upstream.Repr
                              && state.buffer.Remaining() == undelivered != [])
      && (state.Poisoned? <==> upstream.Failed())
      && (!state.Yielding? ==> undelivered == [])
      && decryptor.pos == start + |upstream.given|
      && delivered + undelivered == Cipher(decryptor.ks, start, upstream.given)
    }

    constructor (overTls: bool, script: seq<Answer>, decryptor: AesCtr)
      ensures Valid() && fresh(Repr() - {decryptor}) && state.Idle? && delivered == []
      ensures this.decryptor == decryptor && start == decryptor.pos
      ensures (upstream.tls != null) == overTls && upstream.wire.arrived == []
      ensures upstream.wire.script == script && upstream.wire.avail == [] && Dry()
    {
      upstream := new AsyncSource(overTls, script);
      this.decryptor := decryptor;
      start := decryptor.pos;
      state, delivered, undelivered := Idle, [], [];
    }

    /** The network hands more bytes to the socket underneath. */
    method Arrive(data: seq<byte>)
      requires Valid()
      modifies upstream.wire
      ensures Valid() && upstream.wire.arrived == old(upstream.wire.arrived) + data
      ensures upstream.wire.avail == old(upstream.wire.avail) + data
    {
      upstream.Arrive(data);
    }

    /** The socket underneath goes on by another script. */
    method Answers(script: seq<Answer>)
      requires Valid()
      modifies upstream.wire
      ensures Valid() && upstream.wire.script == script
      ensures upstream.wire.arrived == old(upstream.wire.arrived) && upstream.wire.avail == old(upstream.wire.avail)
    {
      upstream.wire.Answers(script);
    }

    /** Decrypt the bytes the upstream just gave. */
    method Decrypt(data: seq<byte>, ghost before: seq<byte>) returns (plain: seq<byte>)
      requires upstream.Valid() && {this, decryptor} !! upstream.Repr && state.Idle? && undelivered == []
      requires upstream.given == before + data && decryptor.pos == start + |before| && !upstream.Failed()
      requires delivered == Cipher(decryptor.ks, start, before)
      modifies this`delivered, decryptor
      ensures Valid() && delivered == old(delivered) + plain && |plain| == |data|
    {
      hide AsyncSource.Valid, AsyncSource.Failed, Cipher;
      CipherConcat(decryptor.ks, start, before, data);
      plain := decryptor.Apply(data);
      delivered := delivered + plain;
    }

    /** Nothing decrypted or unframed is waiting to be read. */
    ghost predicate Dry()
      reads this, Repr()
    {
      undelivered == [] && upstream.Dry()
    }

    /** Bytes on the way to the caller. */
    ghost function Left(): nat
      reads this, Repr()
    {
      |undelivered| + upstream.Left()
    }

    /** When which answer is given: Pending exactly when the socket just blocked, nothing exactly at the
        end of the stream or an alert, an error exactly when the upstream failed; otherwise bytes. */
    ghost predicate Answered(r: Poll<seq<byte>>, wasLeft: nat, wereAlerts: nat, werePolls: nat)
      reads this, Repr(), upstream.wire
    {
      && (r.Pending? <==> upstream.wire.blocked && upstream.wire.polls > werePolls)
      && (r.Fail? <==> upstream.Failed()) && (r.Fail? ==> upstream.wire.polls > werePolls)
      && (r == Ready([]) <==> upstream.EndsNow(werePolls) || upstream.Alerted() > wereAlerts)
      && (r.Ready? ==> Left() < wasLeft || (r.value == [] && upstream.EndsNow(werePolls)))
    }

    method PollRead(max: nat) returns (r: Poll<seq<byte>>)
      requires Valid()
      modifies Repr()
      ensures Valid() && fresh(Repr() - old(Repr()))
      ensures r.Pending? ==> Dry()
      ensures delivered == old(delivered) + (if r.Ready? then r.value else [])
      ensures r.Ready? ==> |r.value| <= max
      ensures r.Fail? <==> state.Poisoned?
      ensures upstream.wire.arrived == old(upstream.wire.arrived)
      ensures max > 0 && !old(state).Poisoned? ==>
                Answered(r, old(Left()), old(upstream.Alerted()), old(upstream.wire.polls))
      ensures max > 0 && old(state).Idle? && r.Ready? && |r.value| < max ==> Dry()
      ensures max > 0 && r == Ready([]) ==> Dry()
      ensures max > 0 && old(state).Idle? && upstream.tls == null && r.Ready? ==>
                var told := Told(old(upstream.wire.script), old(upstream.wire.avail), max);
                told.Ready? && |r.value| == |told.value|
      ensures upstream.wire.polls >= old(upstream.wire.polls)
      ensures upstream.wire.polls == old(upstream.wire.polls) ==>
                upstream.wire.script == old(upstream.wire.script) && upstream.wire.avail == old(upstream.wire.avail)
      ensures old(upstream.wire.Flowing()) && max > 0 && upstream.wire.polls > old(upstream.wire.polls) ==>
                upstream.wire.Flowed(old(upstream.wire.Spare()), false)
    {
      hide AsyncSource.Valid, AsyncSource.Failed, AsyncSource.Left, AsyncSource.Alerted;
      hide AsyncSource.Dry, Cipher, Told;
      match state {
        case Poisoned(error) =>
          state := Poisoned(None);
          return Fail(if error.Some? then error.value else Other);
        case Yielding(_) =>
          if max == 0 {
            return Ready([]);
          }
          r := Yield(max);
        case Idle =>
          if max == 0 {
            return Ready([]);
          }
          r := ReadThrough(max);
      }
    }

    method Yield(max: nat) returns (r: Poll<seq<byte>>)
      requires Valid() && state.Yielding? && max > 0
      modifies this, state.buffer
      ensures Valid() && Repr() <= old(Repr())
      ensures r.Ready? && |r.value| <= max && delivered == old(delivered) + r.value && r.value != []
      ensures !state.Poisoned? && Left() < old(Left())
    {
      hide AsyncSource.Valid, AsyncSource.Failed, AsyncSource.Left, Cipher;
      var buffer := state.buffer;
      var chunk := buffer.CopyTo(max);
      ghost var rest := buffer.Remaining();
      assert delivered + (chunk + rest) == (delivered + chunk) + rest;
      delivered, undelivered := delivered + chunk, rest;
      if buffer.position >= |buffer.data| {
        state := Idle;
      }
      r := Ready(chunk);
    }

    method ReadThrough(max: nat) returns (r: Poll<seq<byte>>)
      requires Valid() && state.Idle? && max > 0
      modifies Repr()
      ensures Valid() && fresh(Repr() - old(Repr()))
      ensures r.Pending? ==> Dry()
      ensures delivered == old(delivered) + (if r.Ready? then r.value else [])
      ensures r.Ready? ==> |r.value| <= max && (|r.value| < max ==> Dry())
      ensures r.Fail? <==> state.Poisoned?
      ensures upstream.wire.arrived == old(upstream.wire.arrived)
      ensures Answered(r, old(Left()), old(upstream.Alerted()), old(upstream.wire.polls))
      ensures upstream.tls == null && r.Ready? ==>
                var told := Told(old(upstream.wire.script), old(upstream.wire.avail), max);
                told.Ready? && |r.value| == |told.value|
      ensures upstream.wire.polls >= old(upstream.wire.polls)
      ensures upstream.wire.polls == old(upstream.wire.polls) ==>
                upstream.wire.script == old(upstream.wire.script) && upstream.wire.avail == old(upstream.wire.avail)
      ensures old(upstream.wire.Flowing()) && upstream.wire.polls > old(upstream.wire.polls) ==>
                upstream.wire.Flowed(old(upstream.wire.Spare()), false)
    {
      hide AsyncSource.Valid, AsyncSource.Failed, AsyncSource.Left, AsyncSource.EndsNow, AsyncSource.Alerted;
      hide AsyncSource.Dry, Cipher, Told;
      ghost var before := upstream.given;
      var p := upstream.PollRead(max);
      assert !p.Ready? ==> upstream.given == before;
      match p {
        case Pending =>
          r := Pending;
        case Fail(kind) =>
          state := Poisoned(Some(kind));
          r := Fail(kind);
        case Ready(data) =>
          var plain := Decrypt(data, before);
          r := Ready(plain);
      }
    }
  }
}
