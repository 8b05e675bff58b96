/** Exponential backoff per datacenter: used by the normal reconnect path and, with its own bounds,
    during a single-endpoint outage (src/transport/middle_proxy/health.rs). */
module Backoffs {
  import opened Bytes
  import opened AdaptiveFloors

  const U64_MAX: nat := 0xffff_ffff_ffff_ffff

  /** An attempt that restored the floor or not, with the jitter added to the wait after it; or the
      state of a key being dropped. */
  datatype Try = Try(key: Key, time: nat, ok: bool, jitter: nat) | Drop(key: Key)

  /** Consecutive failures of `k` at the end of the history. */
  function Fails(log: seq<Try>, k: Key): nat {
    if log == [] then 0
    else
      var e, before := log[|log| - 1], log[..|log| - 1];
      if e.key != k then Fails(before, k)
      else if e.Try? && !e.ok then Fails(before, k) + 1
      else 0
  }

  /** Index of the last attempt of `k` since its state was dropped, or -1. */
  function LastTry(log: seq<Try>, k: Key): (i: int)
    ensures -1 <= i < |log|
    ensures i >= 0 ==> log[i].Try? && log[i].key == k
  {
    if log == [] then -1
    else
      var e := log[|log| - 1];
      if e.key != k then LastTry(log[..|log| - 1], k)
      else if e.Try? then |log| - 1
      else -1
  }

  /** The delay after `n` consecutive failures: it doubles up to the cap. */
  function Delay(base: nat, cap: nat, n: nat): nat {
    if n == 0 then base else Min(base * Pow2(n), cap)
  }

  /** Saturating doubling, capped, as the code computes it. */
  function Doubled(curr: nat, cap: nat): nat {
    Min(Min(2 * curr, U64_MAX), cap)
  }

  /** Doubling step by step is the closed form, whatever the starting point. */
  lemma DoublingIsPower(base: nat, cap: nat, n: nat)
    requires cap <= U64_MAX
    ensures Doubled(Delay(base, cap, n), cap) == Delay(base, cap, n + 1)
  {
    var p := Pow2(n);
    assert Pow2(n + 1) == 2 * p;
    assert base * (2 * p) == 2 * (base * p);
    if n == 0 {
      assert base * Pow2(1) == 2 * base;
    }
  }

  /** Attempts of one key, with no drop in between, keep the distance the first one asked for. */
  ghost predicate Spaced(base: nat, cap: nat, log: seq<Try>) {
    forall i, j :: 0 <= i < j < |log| && Linked(log, i, j) ==>
                     log[j].time >= log[i].time + Delay(base, cap, Fails(log[..i + 1], log[i].key))
  }

  ghost predicate Linked(log: seq<Try>, i: nat, j: nat)
    requires i < j < |log|
  {
    && log[i].Try? && log[j].Try? && log[i].key == log[j].key
    && forall m :: i < m < j && log[m].key == log[i].key ==> log[m].Try?
  }

  /** The stored delay and the earliest next attempt of `k`, as the history determines them. */
  ghost predicate TimerAgrees(base: nat, cap: nat, log: seq<Try>, k: Key, delay: map<Key, nat>, next: map<Key, nat>) {
    var i := LastTry(log, k);
    && (k in delay <==> i >= 0) && (k in next <==> i >= 0)
    && (i >= 0 ==> delay[k] == Delay(base, cap, Fails(log, k)) && next[k] == log[i].time + delay[k] + log[i].jitter)
    && (i < 0 ==> Fails(log, k) == 0)
  }

  /** An attempt of `k` is due: it was never tried, or the delay after its consecutive failures and the
      jitter have passed since the last try. */
  predicate DueBy(base: nat, cap: nat, log: seq<Try>, k: Key, now: nat) {
    var i := LastTry(log, k);
    i >= 0 ==> now >= log[i].time + Delay(base, cap, Fails(log, k)) + log[i].jitter
  }

  lemma Appended(log: seq<Try>, e: Try, k: Key)
    ensures LastTry(log + [e], k) == if e.key != k then LastTry(log, k) else if e.Try? then |log| else -1
    ensures Fails(log + [e], k)
         == if e.key != k then Fails(log, k) else if e.Try? && !e.ok then Fails(log, k) + 1 else 0
  {
    assert (log + [e])[..|log|] == log;
  }

  /** An event on another key does not touch the timer of `x`. */
  lemma OtherTimer(base: nat, cap: nat, log: seq<Try>, e: Try, x: Key,
                   delay: map<Key, nat>, next: map<Key, nat>, delay': map<Key, nat>, next': map<Key, nat>)
    requires TimerAgrees(base, cap, log, x, delay, next) && x != e.key
    requires delay' - {e.key} == delay - {e.key} && next' - {e.key} == next - {e.key}
    ensures TimerAgrees(base, cap, log + [e], x, delay', next')
  {
    hide Delay, Fails, LastTry;
    Appended(log, e, x);
    assert x in delay' <==> x in delay' - {e.key};
    assert x in next' <==> x in next' - {e.key};
  }

  /** An attempt at least the stored delay after the previous one keeps the history spaced. */
  lemma {:induction false} SpacedSnoc(base: nat, cap: nat, log: seq<Try>, e: Try)
    requires Spaced(base, cap, log)
    requires e.Try? && LastTry(log, e.key) >= 0 ==>
               e.time >= log[LastTry(log, e.key)].time + Delay(base, cap, Fails(log, e.key))
    ensures Spaced(base, cap, log + [e])
  {
    var all, n := log + [e], |log|;
    forall i, j | 0 <= i < j < |all| && Linked(all, i, j)
      ensures all[j].time >= all[i].time + Delay(base, cap, Fails(all[..i + 1], all[i].key))
    {
      assert all[..i + 1] == log[..i + 1];
      assert all[i] == log[i];
      if j < n {
        assert forall m :: i < m < j ==> all[m] == log[m];
        assert Linked(log, i, j);
      } else {
        var k := e.key;
        assert forall m :: i < m < n ==> all[m] == log[m];
        LastIsLinked(log, i, k);
        var l := LastTry(log, k);
        FailsAtLast(log, k);
        if l > i {
          assert Linked(log, i, l);
        }
      }
    }
  }

  lemma {:induction false} LastIsLinked(log: seq<Try>, i: nat, k: Key)
    requires i < |log| && log[i].Try? && log[i].key == k
    requires forall m :: i < m < |log| && log[m].key == k ==> log[m].Try?
    ensures i <= LastTry(log, k)
  {
    var n := |log| - 1;
    if i < n && log[n].key != k {
      LastIsLinked(log[..n], i, k);
    }
  }

  lemma {:induction false} FailsAtLast(log: seq<Try>, k: Key)
    requires LastTry(log, k) >= 0
    ensures Fails(log[..LastTry(log, k) + 1], k) == Fails(log, k)
  {
    var n, l := |log| - 1, LastTry(log, k);
    if log[n].key != k {
      FailsAtLast(log[..n], k);
      assert log[..n][..l + 1] == log[..l + 1];
    } else {
      assert log[..l + 1] == log;
    }
  }

  class Backoff {
    const base: nat
    const cap: nat
    var delay: map<Key, nat>
    var next: map<Key, nat>
    ghost var log: seq<Try>

    ghost predicate Valid()
      reads this
    {
      && cap <= U64_MAX && Spaced(base, cap, log)
      && forall k: Key :: TimerAgrees(base, cap, log, k, delay, next)
    }

    constructor (base: nat, cap: nat)
      requires cap <= U64_MAX
      ensures Valid() && this.base == base && this.cap == cap && log == []
    {
      this.base, this.cap, delay, next, log := base, cap, map[], map[], [];
    }

    predicate Due(k: Key, now: nat)
      reads this
    {
      k in next ==> now >= next[k]
    }

    /** What is due follows from the history of attempts alone. */
    lemma DueExactly(k: Key, now: nat)
      requires Valid()
      ensures Due(k, now) <==> DueBy(base, cap, log, k, now)
    {
      hide Delay, Fails, LastTry, Spaced;
      assert TimerAgrees(base, cap, log, k, delay, next);
    }

    /** Schedule after an attempt made at `now`; jitter only ever adds to the wait. */
    method Schedule(k: Key, now: nat, ok: bool, jitter: nat)
      requires Valid() && Due(k, now)
      modifies this
      ensures Valid() && log == old(log) + [Try(k, now, ok, jitter)]
      ensures k in delay && k in next && next[k] == now + delay[k] + jitter
      ensures delay[k] == if ok then base else Delay(base, cap, Fails(old(log), k) + 1)
    {
      assert Delay(base, cap, 0) == base;
      hide Delay, Fails, LastTry, Spaced, Doubled;
      ghost var e := Try(k, now, ok, jitter);
      assert TimerAgrees(base, cap, log, k, delay, next);
      DoublingIsPower(base, cap, Fails(log, k));
      SpacedSnoc(base, cap, log, e);
      Appended(log, e, k);
      var ms: nat;
      if ok {
        ms := base;
      } else {
        var curr := if k in delay then delay[k] else base;
        ms := Doubled(curr, cap);
      }
      delay, next := delay[k := ms], next[k := now + ms + jitter];
      forall x: Key | x != k
        ensures TimerAgrees(base, cap, log + [e], x, delay, next)
      {
        OtherTimer(base, cap, log, e, x, old(delay), old(next), delay, next);
      }
      log := log + [e];
    }

    method Forget(k: Key)
      requires Valid()
      modifies this
      ensures Valid() && log == old(log) + [Drop(k)]
    {
      hide Delay, Fails, LastTry, Spaced;
      ghost var e := Drop(k);
      SpacedSnoc(base, cap, log, e);
      Appended(log, e, k);
      delay, next := delay - {k}, next - {k};
      forall x: Key | x != k
        ensures TimerAgrees(base, cap, log + [e], x, delay, next)
      {
        OtherTimer(base, cap, log, e, x, old(delay), old(next), delay, next);
      }
      log := log + [e];
    }
  }
}
