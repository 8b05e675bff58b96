/** The adaptive writer floor of the health monitor: when may a quiet single-endpoint datacenter be
    kept with fewer writers (src/transport/middle_proxy/health.rs)? */
module AdaptiveFloors {

  /** A datacenter and an IP family. */
  datatype Key = Key(dc: int, v6: bool)

  /** What an evaluation of one key saw, or a reset of its state. */
  datatype Event =
    | Bound(key: Key, time: nat, grace: nat)
    | Unbound(key: Key, time: nat)
    | Reset(key: Key)
    | ResetAll

  predicate Concerns(e: Event, k: Key) {
    e.ResetAll? || e.key == k
  }

  /** Since event `i`, every evaluation of `k` saw no bound client and nothing was reset. */
  ghost predicate QuietSince(log: seq<Event>, k: Key, i: int) {
    forall j :: 0 <= j && i < j < |log| && Concerns(log[j], k) ==> log[j].Unbound?
  }

  /** Event `b` is the last time a client was seen bound, with no reset after it. */
  ghost predicate LastBound(log: seq<Event>, k: Key, b: int) {
    0 <= b < |log| && log[b].Bound? && log[b].key == k && QuietSince(log, k, b)
  }

  /** The grace period of the last bound observation is over at `t`. */
  ghost predicate GraceOver(log: seq<Event>, k: Key, t: nat) {
    forall b :: LastBound(log, k, b) ==> t >= log[b].time + log[b].grace
  }

  /** Evaluation `i` saw `k` idle, past the grace period, and `k` stayed quiet since. */
  ghost predicate IdleFrom(log: seq<Event>, k: Key, i: int) {
    && 0 <= i < |log| && log[i].Unbound? && log[i].key == k
    && QuietSince(log, k, i) && GraceOver(log, k, log[i].time)
  }

  /** Some such evaluation lies at least `idle` back. */
  ghost predicate IdleLongEnough(log: seq<Event>, k: Key, now: nat, idle: nat) {
    exists i :: IdleFrom(log, k, i) && now - log[i].time >= idle
  }

  /** Evaluations read a clock that does not go back. */
  ghost predicate Past(log: seq<Event>, now: nat) {
    forall i :: 0 <= i < |log| && (log[i].Bound? || log[i].Unbound?) ==> log[i].time <= now
  }

  /** The two timestamps kept for `k`, if any, as the history determines them: the first evaluation
      of the current idle spell, and the end of a grace period still to be waited for. */
  ghost predicate Agrees(log: seq<Event>, k: Key, idleSince: map<Key, nat>, recoverUntil: map<Key, nat>, clock: nat) {
    && (k in idleSince ==> exists i :: IdleFrom(log, k, i) && log[i].time == idleSince[k])
    && (forall i :: IdleFrom(log, k, i) ==> k in idleSince && idleSince[k] <= log[i].time)
    && (k in recoverUntil ==> exists b :: LastBound(log, k, b) && recoverUntil[k] == log[b].time + log[b].grace)
    && (k !in recoverUntil ==> GraceOver(log, k, clock))
  }

  /** An event that leaves `k` quiet changes neither its last bound observation nor its grace period. */
  lemma StaysQuiet(log: seq<Event>, e: Event, k: Key)
    requires Concerns(e, k) ==> e.Unbound?
    ensures forall i :: -1 <= i < |log| ==> (QuietSince(log + [e], k, i) <==> QuietSince(log, k, i))
    ensures forall b :: LastBound(log + [e], k, b) <==> LastBound(log, k, b)
    ensures forall t: nat :: GraceOver(log + [e], k, t) <==> GraceOver(log, k, t)
    ensures forall i :: i != |log| ==> (IdleFrom(log + [e], k, i) <==> IdleFrom(log, k, i))
  {
    var all := log + [e];
    assert forall j :: 0 <= j < |log| ==> all[j] == log[j];
    forall i | -1 <= i < |log|
      ensures QuietSince(all, k, i) <==> QuietSince(log, k, i)
    {
      if QuietSince(all, k, i) {
        assert forall j :: i < j < |log| && Concerns(log[j], k) ==> all[j].Unbound?;
      }
    }
    forall b
      ensures LastBound(all, k, b) <==> LastBound(log, k, b)
    {
    }
    forall t: nat
      ensures GraceOver(all, k, t) <==> GraceOver(log, k, t)
    {
      if GraceOver(all, k, t) {
        assert forall b :: LastBound(log, k, b) ==> LastBound(all, k, b) && all[b] == log[b];
      }
      if GraceOver(log, k, t) {
        assert forall b :: LastBound(all, k, b) ==> LastBound(log, k, b) && all[b] == log[b];
      }
    }
  }

  /** After any other event on `k` there is no idle spell, and only that event can be its last bound
      observation. */
  lemma Disturbed(log: seq<Event>, e: Event, k: Key)
    requires Concerns(e, k) && !e.Unbound?
    ensures forall i :: !IdleFrom(log + [e], k, i)
    ensures forall b :: LastBound(log + [e], k, b) <==> b == |log| && e.Bound?
  {
    var all, n := log + [e], |log|;
    assert Concerns(all[n], k) && !all[n].Unbound?;
    assert e.Bound? ==> QuietSince(all, k, n);
  }

  /** Events that do not concern `k`, and clock readings, leave its timestamps right. */
  lemma Unconcerned(log: seq<Event>, e: Event, k: Key, idle: map<Key, nat>, recover: map<Key, nat>,
                    idle': map<Key, nat>, recover': map<Key, nat>, clock: nat, now: nat)
    requires !Concerns(e, k) && clock <= now && Agrees(log, k, idle, recover, clock)
    requires k in idle <==> k in idle'
    requires k in idle ==> idle'[k] == idle[k]
    requires k in recover <==> k in recover'
    requires k in recover ==> recover'[k] == recover[k]
    ensures Agrees(log + [e], k, idle', recover', now)
  {
    StaysQuiet(log, e, k);
    if k in idle {
      var i :| IdleFrom(log, k, i) && log[i].time == idle[k];
      assert IdleFrom(log + [e], k, i);
    }
    forall i | IdleFrom(log + [e], k, i)
      ensures k in idle' && idle'[k] <= (log + [e])[i].time
    {
      assert IdleFrom(log, k, i);
    }
    if k in recover {
      var b :| LastBound(log, k, b) && recover[k] == log[b].time + log[b].grace;
      assert LastBound(log + [e], k, b);
    } else {
      assert GraceOver(log, k, now);
    }
  }

  /** An idle evaluation of `k` while its grace period runs. */
  lemma StillInGrace(log: seq<Event>, k: Key, idle: map<Key, nat>, recover: map<Key, nat>, clock: nat, now: nat)
    requires Past(log, clock) && clock <= now && Agrees(log, k, idle, recover, clock)
    requires k in recover && now < recover[k]
    ensures Agrees(log + [Unbound(k, now)], k, idle - {k}, recover, now)
  {
    var e := Unbound(k, now);
    var all := log + [e];
    StaysQuiet(log, e, k);
    var b :| LastBound(log, k, b) && recover[k] == log[b].time + log[b].grace;
    assert LastBound(all, k, b) && all[b] == log[b];
    forall i
      ensures !IdleFrom(all, k, i)
    {
      if 0 <= i < |all| {
        assert i < |log| ==> all[i] == log[i];
        assert all[i].Unbound? ==> all[i].time <= now;
      }
    }
  }

  /** An idle evaluation of `k` outside any grace period: the idle spell goes on or starts now. */
  lemma GoesIdle(log: seq<Event>, k: Key, idle: map<Key, nat>, recover: map<Key, nat>, clock: nat, now: nat)
    requires Past(log, clock) && clock <= now && Agrees(log, k, idle, recover, clock)
    requires k in recover ==> recover[k] <= now
    ensures Agrees(log + [Unbound(k, now)], k, if k in idle then idle else idle[k := now], recover - {k}, now)
    ensures GraceOver(log, k, now)
  {
    var e := Unbound(k, now);
    var all := log + [e];
    StaysQuiet(log, e, k);
    assert GraceOver(log, k, now) by {
      if k in recover {
        var b :| LastBound(log, k, b) && recover[k] == log[b].time + log[b].grace;
        OneLastBound(log, k, b);
      }
    }
    assert all[|log|] == e && IdleFrom(all, k, |log|);
    if k in idle {
      var i :| IdleFrom(log, k, i) && log[i].time == idle[k];
      assert IdleFrom(all, k, i) && all[i] == log[i];
    }
    forall i | IdleFrom(all, k, i)
      ensures k in idle ==> idle[k] <= all[i].time
      ensures k !in idle ==> now <= all[i].time
    {
      if i < |log| {
        assert IdleFrom(log, k, i) && all[i] == log[i];
      }
    }
  }

  lemma OneLastBound(log: seq<Event>, k: Key, b: int)
    requires LastBound(log, k, b)
    ensures forall c :: LastBound(log, k, c) ==> c == b
  {
    forall c | LastBound(log, k, c)
      ensures c == b
    {
      if c < b {
        assert Concerns(log[b], k);
      } else if b < c {
        assert Concerns(log[c], k);
      }
    }
  }

  class AdaptiveFloor {
    var idleSince: map<Key, nat>
    var recoverUntil: map<Key, nat>
    ghost var log: seq<Event>
    ghost var clock: nat

    ghost predicate Valid()
      reads this
    {
      Past(log, clock) && forall k: Key :: Agrees(log, k, idleSince, recoverUntil, clock)
    }

    constructor ()
      ensures Valid() && log == [] && clock == 0
    {
      idleSince, recoverUntil, log, clock := map[], map[], [], 0;
    }

    /** An outage that ended, or a datacenter the adaptive floor does not apply to. */
    method Forget(k: Key)
      requires Valid()
      modifies this
      ensures Valid() && log == old(log) + [Reset(k)] && clock == old(clock)
    {
      idleSince, recoverUntil := idleSince - {k}, recoverUntil - {k};
      ghost var e := Reset(k);
      Disturbed(log, e, k);
      OthersUnconcerned(k, e, old(idleSince), old(recoverUntil), clock);
      Record(e, clock);
    }

    /** Static floor mode drops all state. */
    method ForgetAll()
      requires Valid()
      modifies this
      ensures Valid() && log == old(log) + [ResetAll] && clock == old(clock)
    {
      idleSince, recoverUntil := map[], map[];
      forall k: Key
        ensures Agrees(log + [ResetAll], k, idleSince, recoverUntil, clock)
      {
        Disturbed(log, ResetAll, k);
      }
      Record(ResetAll, clock);
    }

    /** Keys other than the one an event names keep agreeing. */
    lemma OthersUnconcerned(k: Key, e: Event, idle: map<Key, nat>, recover: map<Key, nat>, now: nat)
      requires forall x: Key :: Agrees(log, x, idle, recover, clock)
      requires !e.ResetAll? && e.key == k && clock <= now
      requires idleSince - {k} == idle - {k} && recoverUntil - {k} == recover - {k}
      ensures forall x: Key :: x != k ==> Agrees(log + [e], x, idleSince, recoverUntil, now)
    {
      forall x: Key | x != k
        ensures Agrees(log + [e], x, idleSince, recoverUntil, now)
      {
        assert Agrees(log, x, idle, recover, clock);
        assert x in idleSince <==> x in idleSince - {k};
        assert x in recoverUntil <==> x in recoverUntil - {k};
        Unconcerned(log, e, x, idle, recover, idleSince, recoverUntil, clock, now);
      }
    }

    /** Append an event after the maps were updated for it. */
    ghost method Record(e: Event, now: nat)
      requires Past(log, clock) && clock <= now && (e.Bound? || e.Unbound? ==> e.time == now)
      requires forall k: Key :: Agrees(log + [e], k, idleSince, recoverUntil, now)
      modifies this`log, this`clock
      ensures Valid() && log == old(log) + [e] && clock == now
    {
      log, clock := log + [e], now;
    }

    /** May the floor of `k` be reduced? Yes exactly when `k` has been idle, past the grace period of the
        last bound observation, in every evaluation over at least `idle`. */
    method ShouldReduce(k: Key, applies: bool, hasBound: bool, now: nat, grace: nat, idle: nat) returns (reduce: bool)
      requires Valid() && clock <= now
      modifies this
      ensures Valid() && clock <= now && log == old(log) + [Seen(k, applies, hasBound, now, grace)]
      ensures reduce <==> IdleLongEnough(log, k, now, idle)
      ensures reduce ==> forall b :: LastBound(log, k, b) ==> now - log[b].time >= log[b].grace + idle
    {
      ghost var e := Seen(k, applies, hasBound, now, grace);
      if !applies {
        Disturbed(log, e, k);
        Forget(k);
        return false;
      }
      if hasBound {
        Disturbed(log, e, k);
        idleSince, recoverUntil := idleSince - {k}, recoverUntil[k := now + grace];
        OthersUnconcerned(k, e, old(idleSince), old(recoverUntil), now);
        assert (log + [e])[|log|] == e;
        Record(e, now);
        return false;
      }
      if k in recoverUntil && now < recoverUntil[k] {
        StillInGrace(log, k, idleSince, recoverUntil, clock, now);
        idleSince := idleSince - {k};
        OthersUnconcerned(k, e, old(idleSince), old(recoverUntil), now);
        Record(e, now);
        return false;
      }
      GoesIdle(log, k, idleSince, recoverUntil, clock, now);
      recoverUntil := recoverUntil - {k};
      if k !in idleSince {
        idleSince := idleSince[k := now];
      }
      OthersUnconcerned(k, e, old(idleSince), old(recoverUntil), now);
      Record(e, now);
      reduce := now - idleSince[k] >= idle;
      assert Agrees(log, k, idleSince, recoverUntil, now);
    }
  }

  /** The event an evaluation leaves behind. */
  function Seen(k: Key, applies: bool, hasBound: bool, now: nat, grace: nat): Event {
    if !applies then Reset(k) else if hasBound then Bound(k, now, grace) else Unbound(k, now)
  }
}
