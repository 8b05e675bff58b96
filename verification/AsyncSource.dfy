/** What `CryptoReader` reads from: the socket itself or a FakeTLS layer above it. */
module AsyncSources {
  import opened Bytes
  import opened Io
  import opened TlsRecord
  import opened TlsReader

  class AsyncSource {
    const tls: FakeTlsReader?
    const wire: WireSource
    ghost var given: seq<byte>
    ghost var Repr: set<object>

    ghost predicate Valid()
      reads this, Repr
      ensures Valid() ==> this in Repr && wire in Repr
    {
      && this in Repr && wire in Repr
      && (tls == null ==> wire.Valid() && given == wire.consumed)
      && (tls != null ==>
            && tls in Repr && tls.Repr() <= Repr && this !in tls.Repr() && tls.Valid()
            && tls.upstream == wire && given == tls.delivered)
    }

    /** The data stream the arrived wire bytes carry. */
    ghost function Carried(): seq<byte>
      reads this, wire
    {
      if tls == null then wire.arrived else AppPayload(wire.arrived)
    }

    /** Nothing unframed is waiting to be read. */
    ghost predicate Dry()
      reads this, Repr
    {
      tls != null && tls in Repr ==> tls.undelivered == []
    }

    /** Whatever the schedule, what was given out is a prefix of what the wire carries. */
    lemma GivenIsPrefix()
      requires Valid()
      ensures given <= Carried()
    {
      if tls != null {
        tls.DeliversPayload();
        AppPayloadMonotone(wire.consumed, wire.arrived);
      }
    }

    /** The last poll failed, or a FakeTLS layer has given up. */
    ghost predicate Failed()
      reads this, Repr
    {
      if tls == null || tls !in Repr then wire in Repr && wire.broke.Some? else tls.state.Poisoned?
    }

    /** Bytes on the way to the caller. */
    ghost function Left(): nat
      reads this, Repr
    {
      if wire !in Repr then 0
      else |wire.avail| + if tls == null || tls !in Repr then 0 else |tls.partial| + |tls.undelivered|
    }

    /** The poll just made found the end of the stream. */
    ghost predicate EndsNow(werePolls: nat)
      reads this, Repr
    {
      wire in Repr && wire.eof && wire.polls > werePolls && (tls != null && tls in Repr ==> tls.partial == [])
    }

    /** Alerts passed by a FakeTLS layer. */
    ghost function Alerted(): nat
      reads this, Repr
    {
      if tls == null || tls !in Repr then 0 else tls.alerts
    }

    constructor (overTls: bool, script: seq<Answer>)
      ensures Valid() && fresh(Repr) && (tls != null) == overTls && given == [] && wire.arrived == []
      ensures !Failed() && Dry() && wire.script == script && wire.avail == []
    {
      if overTls {
        var t := new FakeTlsReader(script);
        tls, wire := t, t.upstream;
        Repr := {this} + t.Repr();
      } else {
        tls := null;
        var w := new WireSource(script);
        wire := w;
        Repr := {this, w};
      }
      given := [];
    }

    /** When which answer is given: Pending exactly when the socket just blocked, an error exactly when reading
        cannot go on, nothing exactly at the end of the stream or an alert; otherwise bytes. */
    ghost predicate Answered(r: Poll<seq<byte>>, max: nat, wasLeft: nat, wereAlerts: nat, werePolls: nat)
      reads this, Repr
    {
      && wire in Repr
      && (r.Pending? <==> wire.blocked && wire.polls > werePolls)
      && (r.Fail? <==> Failed()) && (r.Fail? ==> wire.polls > werePolls)
      && (r == Ready([]) <==> EndsNow(werePolls) || Alerted() > wereAlerts)
      && (r.Ready? ==> (|r.value| < max ==> Dry()))
      && (r.Ready? ==> Left() < wasLeft || (r.value == [] && EndsNow(werePolls)))
    }

    method PollRead(max: nat) returns (r: Poll<seq<byte>>)
      requires Valid()
      modifies Repr
      ensures Valid() && fresh(Repr - old(Repr))
      ensures given == old(given) + (if r.Ready? then r.value else [])
      ensures r.Ready? ==> |r.value| <= max
      ensures r.Pending? ==> Dry()
      ensures wire.arrived == old(wire.arrived)
      ensures max > 0 && !old(Failed()) ==> Answered(r, max, old(Left()), old(Alerted()), old(wire.polls))
      ensures tls == null ==> r == Told(old(wire.script), old(wire.avail), max)
      ensures wire.polls >= old(wire.polls)
      ensures wire.polls == old(wire.polls) ==> wire.script == old(wire.script) && wire.avail == old(wire.avail)
      ensures old(wire.Flowing()) && max > 0 && wire.polls > old(wire.polls) ==> wire.Flowed(old(wire.Spare()), false)
    {
      hide FakeTlsReader.Inv, Told;
      if tls == null {
        r := wire.PollRead(max);
      } else {
        r := tls.PollRead(max);
        Repr := Repr + tls.Repr();
      }
      if r.Ready? {
        given := given + r.value;
      }
    }

    method Arrive(data: seq<byte>)
      requires Valid()
      modifies wire
      ensures Valid() && wire.arrived == old(wire.arrived) + data && wire.avail == old(wire.avail) + data
      ensures Failed() == old(Failed()) && Dry() == old(Dry())
    {
      wire.Arrive(data);
    }
  }
}
