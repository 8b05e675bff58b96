/** `FakeTlsWriter`: wraps accepted bytes into Application Data records
    (src/stream/tls_stream.rs). */
module TlsWriter {
  import opened Bytes
  import opened Io
  import opened StreamBuffers
  import opened TlsRecord

  const MAX_PENDING_WRITE: nat := 64 * 1024

  datatype State =
    | Idle
    | WritingRecord(record: WriteBuffer, payloadSize: nat)
    | Poisoned(error: Option<ErrorKind>)

  class FakeTlsWriter {
    const upstream: WireSink
    var state: State
    /** History: all bytes accepted, and all records formed from them. */
    ghost var accepted: seq<byte>
    ghost var framed: seq<byte>

    ghost function Repr(): set<object>
      reads this
    {
      {this, upstream} + (if state.WritingRecord? then {state.record} else {})
    }

    ghost function Unsent(): seq<byte>
      reads this, Repr()
    {
      if state.WritingRecord? then state.record.Contents() else []
    }

    /** The run invariant: complete records carrying exactly the accepted bytes, of which
        the wire holds a prefix and the state machine the rest. */
    ghost predicate Valid()
      reads this, Repr()
    {
      && (state.WritingRecord? ==> state.record.Valid())
      && Complete(framed)
      && AppPayload(framed) == accepted
      && upstream.log <= framed
      && (!state.Poisoned? ==> upstream.log + Unsent() == framed)
      && (state.Poisoned? ==> upstream.fault)
      && |framed| <= 6 * |accepted|
    }

    /** Socket answers left over if every unsent byte took one. */
    ghost function Slack(): int
      reads this, Repr()
    {
      |upstream.script| - |Unsent()|
    }

    constructor (script: seq<Answer>)
      ensures Valid() && fresh(Repr()) && state.Idle? && accepted == [] && upstream.log == []
    {
      upstream := new WireSink(script);
      state, accepted, framed := Idle, [], [];
    }

    /** Offer the unsent part of a record to the wire once. */
    static method WriteOnce(upstream: WireSink, record: WriteBuffer) returns (r: Poll<()>)
      requires record.Valid() && record.Contents() != []
      modifies upstream, record
      ensures record.Valid()
      ensures upstream.log + record.Contents() == old(upstream.log + record.Contents())
      ensures old(upstream.log) <= upstream.log
      ensures r.Ready? ==> |record.Contents()| < |old(record.Contents())|
      ensures r.Pending? ==> record.Contents() == old(record.Contents())
      ensures r.Pending? <==> upstream.blocked
      ensures r.Fail? <==> upstream.broke || upstream.stuck
      ensures r.Fail? ==> upstream.fault
      ensures old(upstream.fault) ==> upstream.fault
      ensures old(upstream.polls) < upstream.polls
      ensures Obliging(old(upstream.script)) ==> Obliging(upstream.script)
      ensures Obliging(old(upstream.script)) && old(upstream.script) != [] ==> r.Ready?
      ensures r.Ready? && old(upstream.script) != [] ==>
                |upstream.script| - |record.Contents()| >= |old(upstream.script)| - |old(record.Contents())|
    {
      var data := record.buffer[record.position..];
      ghost var before := upstream.log;
      var w := upstream.PollWrite(data);
      match w {
        case Pending =>
          r := Pending;
        case Fail(kind) =>
          r := Fail(kind);
        case Ready(n) =>
          if n == 0 {
            r := Fail(WriteZero);
          } else {
            SplitAppend(before, data, n);
            record.Advance(n);
            r := Ready(());
          }
      }
    }

    static method PollFlushRecord(upstream: WireSink, record: WriteBuffer) returns (r: Poll<()>)
      requires record.Valid()
      modifies upstream, record
      ensures record.Valid()
      ensures upstream.log + record.Contents() == old(upstream.log + record.Contents())
      ensures old(upstream.log) <= upstream.log
      ensures r.Ready? ==> record.Contents() == []
      ensures r.Pending? <==> upstream.polls > old(upstream.polls) && upstream.blocked
      ensures r.Fail? <==> upstream.polls > old(upstream.polls) && (upstream.broke || upstream.stuck)
      ensures r.Fail? ==> upstream.fault
      ensures old(upstream.fault) ==> upstream.fault
      ensures old(upstream.polls) <= upstream.polls
      ensures Obliging(old(upstream.script)) ==> Obliging(upstream.script)
      ensures Obliging(old(upstream.script)) && |old(upstream.script)| >= |old(record.Contents())| ==>
                r.Ready? && |upstream.script| >= |old(upstream.script)| - |old(record.Contents())|
    {
      while !record.IsEmpty()
        invariant record.Valid()
        invariant upstream.log + record.Contents() == old(upstream.log + record.Contents())
        invariant old(upstream.log) <= upstream.log
        invariant old(upstream.fault) ==> upstream.fault
        invariant old(upstream.polls) <= upstream.polls
        invariant upstream.polls > old(upstream.polls) ==> !upstream.blocked && !upstream.broke && !upstream.stuck
        invariant Obliging(old(upstream.script)) ==> Obliging(upstream.script)
        invariant Obliging(old(upstream.script)) && |old(upstream.script)| >= |old(record.Contents())| ==>
                    |upstream.script| - |record.Contents()| >= |old(upstream.script)| - |old(record.Contents())|
        decreases |record.Contents()|
      {
        r := WriteOnce(upstream, record);
        if !r.Ready? {
          return;
        }
      }
      r := Ready(());
    }

    /** The socket just answered an error, or moved nothing. */
    ghost predicate Refused(werePolls: nat)
      reads this, upstream
    {
      upstream.polls > werePolls && (upstream.broke || upstream.stuck)
    }

    /** Finish the record under way, if any: `Ready` leaves the machine idle. */
    method Settle() returns (r: Poll<()>)
      requires Valid()
      modifies Repr()
      ensures Valid() && Repr() <= old(Repr())
      ensures accepted == old(accepted) && framed == old(framed)
      ensures old(upstream.log) <= upstream.log && old(upstream.polls) <= upstream.polls
      ensures old(upstream.fault) ==> upstream.fault
      ensures r.Ready? ==> state.Idle?
      ensures r.Pending? ==> state.WritingRecord?
      ensures r.Pending? <==> upstream.polls > old(upstream.polls) && upstream.blocked
      ensures r.Fail? <==> state.Poisoned?
      ensures !old(state.Poisoned?) ==>
                (r.Fail? <==> upstream.polls > old(upstream.polls) && (upstream.broke || upstream.stuck))
      ensures old(state.Poisoned?) ==> r == Fail(old(if state.error.Some? then state.error.value else Other))
                                       && state == Poisoned(None) && upstream.polls == old(upstream.polls)
      ensures Obliging(old(upstream.script)) ==> Obliging(upstream.script)
      ensures !old(state.Poisoned?) && Obliging(old(upstream.script)) && old(Slack()) >= 0 ==>
                r.Ready? && Slack() >= old(Slack())
    {
      match state {
        case Poisoned(error) =>
          state := Poisoned(None);
          return Fail(if error.Some? then error.value else Other);
        case WritingRecord(record, _) =>
          r := PollFlushRecord(upstream, record);
          if r.Fail? {
            state := Poisoned(Some(r.kind));
          } else if r.Ready? {
            state := Idle;
          }
        case Idle =>
          r := Ready(());
      }
    }

    /** From the idle state, form one record of `chunk` and hand it to the wire; what the
        wire does not take is kept. Only an error of the wire refuses the record. */
    method StartRecord(chunk: seq<byte>) returns (r: Poll<nat>)
      requires Valid() && state.Idle? && 0 < |chunk| <= MAX_PAYLOAD
      modifies Repr()
      ensures Valid() && fresh(Repr() - old(Repr()))
      ensures r == Ready(|chunk|) || (r.Fail? && state.Poisoned?)
      ensures r.Fail? <==> upstream.broke
      ensures upstream.polls > old(upstream.polls)
      ensures Obliging(old(upstream.script)) ==> Obliging(upstream.script)
      ensures Obliging(old(upstream.script)) && old(Slack()) > 0 ==>
                r.Ready? && Slack() >= old(Slack()) - HEADER_SIZE - |chunk|
      ensures r.Ready? ==> !state.Poisoned? && accepted == old(accepted) + chunk
                           && framed == old(framed) + BuildRecord(chunk)
      ensures r.Fail? ==> accepted == old(accepted) && framed == old(framed)
      ensures old(upstream.log) <= upstream.log && old(upstream.polls) <= upstream.polls
      ensures old(upstream.fault) ==> upstream.fault
    {
      hide AppPayload, Complete;
      var record := BuildRecord(chunk);
      AppendRecord(framed, chunk);
      assert upstream.log == framed;
      var w := upstream.PollWrite(record);
      if w.Fail? {
        state := Poisoned(Some(w.kind));
        return Fail(w.kind);
      }
      var n := if w.Ready? then w.value else 0;
      SplitAppend(framed, record, n);
      assert upstream.log == framed + record[..n];
      accepted, framed := accepted + chunk, framed + record;
      if n < |record| {
        KeepRest(record[n..], |chunk|);
      }
      r := Ready(|chunk|);
    }

    method FilledBuffer(rest: seq<byte>) returns (buffer: WriteBuffer)
      requires |rest| <= MAX_PENDING_WRITE
      ensures fresh(buffer) && buffer.Valid() && buffer.Contents() == rest
    {
      buffer := new WriteBuffer.WithMaxSize(MAX_PENDING_WRITE);
      assert buffer.Contents() == [];
      var ok := buffer.Extend(rest);
      assert [] + rest == rest;
    }

    /** Store the unsent part of one record. */
    method KeepRest(rest: seq<byte>, payloadSize: nat)
      requires |rest| <= MAX_PENDING_WRITE
      modifies this`state
      ensures state.WritingRecord? && fresh(state.record)
      ensures state.record.Valid() && state.record.Contents() == rest
    {
      var buffer := FilledBuffer(rest);
      state := WritingRecord(buffer, payloadSize);
    }

    /** Ready(n): the first n bytes of `buf` were accepted as one record, or `buf` was empty. */
    method PollWrite(buf: seq<byte>) returns (r: Poll<nat>)
      requires Valid()
      modifies Repr()
      ensures Valid() && fresh(Repr() - old(Repr()))
      ensures r.Ready? ==> r.value == Min(|buf|, MAX_PAYLOAD) && accepted == old(accepted) + buf[..r.value]
      ensures r.Ready? ==> framed == old(framed) + (if buf == [] then [] else BuildRecord(buf[..r.value]))
      ensures !r.Ready? ==> accepted == old(accepted) && framed == old(framed)
      ensures old(upstream.log) <= upstream.log && old(upstream.polls) <= upstream.polls
      ensures r.Pending? ==> upstream.blocked && upstream.polls > old(upstream.polls)
      ensures r.Fail? <==> state.Poisoned?
      ensures !old(state.Poisoned?) && r.Fail? ==> Refused(old(upstream.polls))
      ensures !old(state.Poisoned?) && buf != [] ==> upstream.polls > old(upstream.polls)
      ensures upstream.polls > old(upstream.polls) && upstream.broke ==> r.Fail?
      ensures old(state.Poisoned?) ==> r.Fail?
      ensures Obliging(old(upstream.script)) ==> Obliging(upstream.script)
      ensures !old(state.Poisoned?) && Obliging(old(upstream.script)) && old(Slack()) > 0 ==>
                r.Ready? && Slack() >= old(Slack()) - 6 * r.value
      ensures old(upstream.fault) ==> upstream.fault
    {
      var s := Settle();
      if s.Pending? {
        return Pending;
      }
      if s.Fail? {
        return Fail(s.kind);
      }
      if buf == [] {
        return Ready(0);
      }
      r := StartRecord(buf[..Min(|buf|, MAX_PAYLOAD)]);
    }

    /** Ready: every accepted byte is on the wire, in complete records. */
    method PollFlush() returns (r: Poll<()>)
      requires Valid()
      modifies Repr()
      ensures Valid() && Repr() <= old(Repr())
      ensures accepted == old(accepted) && framed == old(framed)
      ensures r.Ready? ==> state.Idle? && upstream.log == framed
      ensures old(upstream.log) <= upstream.log && old(upstream.polls) <= upstream.polls
      ensures r.Pending? <==> upstream.polls > old(upstream.polls) && upstream.blocked
      ensures state.Poisoned? ==> r.Fail?
      ensures !old(state.Poisoned?) ==> (r.Fail? <==> Refused(old(upstream.polls)))
      ensures r.Ready? ==> upstream.polls > old(upstream.polls) && Complete(upstream.log)
      ensures !old(state.Poisoned?) && Obliging(old(upstream.script)) && old(Slack()) > 0 ==> r.Ready?
    {
      r := Settle();
      if r.Ready? {
        r := upstream.PollFlush();
      }
    }
  }
}
