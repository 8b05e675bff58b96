/** What `CryptoWriter` writes to: the socket itself or a FakeTLS layer above it. */
module AsyncSinks {
  import opened Bytes
  import opened Io
  import opened TlsRecord
  import opened TlsWriter

  class AsyncSink {
    const tls: FakeTlsWriter?
    const wire: WireSink
    /** All bytes accepted, and whether a non-empty write ever failed or moved nothing. */
    ghost var taken: seq<byte>
    ghost var fault: bool

    ghost var Repr: set<object>

    ghost predicate Valid()
      reads this, Repr
      ensures Valid() ==> this in Repr && wire in Repr
    {
      && this in Repr && wire in Repr
      && (tls == null ==> taken == wire.log)
      && (tls != null ==>
            && tls in Repr && tls.Repr() <= Repr && this !in tls.Repr() && tls.Valid()
            && tls.upstream == wire && taken == tls.accepted)
    }

    /** The accepted bytes a peer can extract from the wire. */
    ghost function OnWire(): seq<byte>
      reads this, wire
    {
      if tls == null then wire.log else AppPayload(wire.log)
    }

    /** A FakeTLS layer has given up. */
    ghost predicate Broken()
      reads this, Repr
    {
      tls != null && tls in Repr && tls.state.Poisoned?
    }

    /** Socket answers left over if every unsent byte took one. */
    ghost function Slack(): int
      reads this, Repr
    {
      if wire !in Repr then 0
      else if tls == null || tls !in Repr || !(tls.Repr() <= Repr) then |wire.script|
      else tls.Slack()
    }

    /** The socket just answered an error, or moved nothing. */
    ghost predicate Refused(werePolls: nat)
      reads this, wire
    {
      wire.polls > werePolls && (wire.broke || wire.stuck)
    }

    /** Whatever the schedule, the wire carries a prefix of what was accepted. */
    lemma OnWireIsPrefix()
      requires Valid()
      ensures OnWire() <= taken
    {
      if tls != null {
        AppPayloadMonotone(wire.log, tls.framed);
      }
    }

    constructor (overTls: bool, script: seq<Answer>)
      ensures Valid() && fresh(Repr) && (tls != null) == overTls
      ensures taken == [] && !fault && wire.log == [] && !Broken()
    {
      if overTls {
        var t := new FakeTlsWriter(script);
        tls, wire := t, t.upstream;
        Repr := {this} + t.Repr();
      } else {
        tls := null;
        var w := new WireSink(script);
        wire := w;
        Repr := {this, w};
      }
      taken, fault := [], false;
    }

    method PollWrite(data: seq<byte>) returns (r: Poll<nat>)
      requires Valid()
      modifies Repr
      ensures Valid() && fresh(Repr - old(Repr))
      ensures r.Ready? ==> r.value <= |data| && taken == old(taken) + data[..r.value]
      ensures !r.Ready? ==> taken == old(taken)
      ensures r.Pending? ==> wire.blocked && wire.polls > old(wire.polls)
      ensures old(wire.log) <= wire.log && old(wire.polls) <= wire.polls
      ensures fault == (old(fault) || r.Fail? || (r == Ready(0) && data != []))
      ensures !old(Broken()) && (r.Fail? || (r == Ready(0) && data != [])) ==> Refused(old(wire.polls))
      ensures !old(Broken()) && data != [] ==> wire.polls > old(wire.polls)
      ensures wire.polls > old(wire.polls) && wire.broke ==> r.Fail?
      ensures old(Broken()) || Broken() ==> r.Fail?
      ensures Obliging(old(wire.script)) ==> Obliging(wire.script)
      ensures !old(Broken()) && Obliging(old(wire.script)) && old(Slack()) > 0 && data != [] ==>
                r.Ready? && r.value > 0 && Slack() >= old(Slack()) - 6 * r.value
    {
      hide FakeTlsWriter.Valid, FakeTlsWriter.Slack, BuildRecord;
      if tls == null {
        r := wire.PollWrite(data);
      } else {
        r := tls.PollWrite(data);
        Repr := Repr + tls.Repr();
      }
      if r.Ready? {
        taken := taken + data[..r.value];
      }
      fault := fault || r.Fail? || (r == Ready(0) && data != []);
    }

    /** Ready: the wire carries every accepted byte. */
    method PollFlush() returns (r: Poll<()>)
      requires Valid()
      modifies Repr
      ensures Valid() && fresh(Repr - old(Repr))
      ensures taken == old(taken) && fault == old(fault)
      ensures r.Ready? ==> OnWire() == taken && wire.polls > old(wire.polls) && (tls != null ==> Complete(wire.log))
      ensures r.Pending? <==> wire.blocked && wire.polls > old(wire.polls)
      ensures !old(Broken()) ==> (r.Fail? <==> Refused(old(wire.polls)))
      ensures Broken() ==> r.Fail?
      ensures !old(Broken()) && Obliging(old(wire.script)) && old(Slack()) > 0 ==> r.Ready?
      ensures old(wire.log) <= wire.log && old(wire.polls) <= wire.polls
    {
      hide Complete, AppPayload;
      if tls == null {
        r := wire.PollFlush();
      } else {
        r := tls.PollFlush();
      }
    }
  }
}
