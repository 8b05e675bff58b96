/** What a replay shard is for, told from the history of its calls alone: which keys it still
    remembers (src/stats/mod.rs). */
module ReplaySpec {
  import opened Bytes

  type Key = seq<byte>

  /** Hash to shard, shard capacity and window; a zero window means entries never expire. */
  datatype Config = Config(shardOf: Key -> nat, cap: nat, window: nat)

  /** A call that ended with `key` most recent, `added` when it (re)inserted the key; or a
      cleanup pass over one shard. */
  datatype Event =
    | Touch(key: Key, time: nat, added: bool)
    | Sweep(shard: nat, time: nat)

  function ShardOfEvent(c: Config, e: Event): nat {
    if e.Touch? then c.shardOf(e.key) else e.shard
  }

  /** `now - window`, falling back to `now` when that would precede the clock's origin. */
  function Cutoff(now: nat, window: nat): nat {
    if now >= window then now - window else now
  }

  predicate Expired(time: nat, now: nat, window: nat) {
    window > 0 && time < Cutoff(now, window)
  }

  /** Index of the last call that touched, respectively inserted, `k`; -1 if none. */
  function LastTouch(log: seq<Event>, k: Key): (i: int)
    ensures -1 <= i < |log|
    ensures i >= 0 ==> log[i].Touch? && log[i].key == k
  {
    if log == [] then -1
    else
      var e := log[|log| - 1];
      if e.Touch? && e.key == k then |log| - 1 else LastTouch(log[..|log| - 1], k)
  }

  function LastAdd(log: seq<Event>, k: Key): (i: int)
    ensures -1 <= i <= LastTouch(log, k)
    ensures i >= 0 ==> log[i].Touch? && log[i].key == k && log[i].added
  {
    if log == [] then -1
    else
      var e := log[|log| - 1];
      if e.Touch? && e.key == k && e.added then |log| - 1 else LastAdd(log[..|log| - 1], k)
  }

  lemma {:induction false} LastTouchIsLast(log: seq<Event>, k: Key, i: nat)
    requires i < |log| && log[i].Touch? && log[i].key == k
    ensures i <= LastTouch(log, k)
    ensures log[i].added ==> i <= LastAdd(log, k)
  {
    var n := |log| - 1;
    if i < n {
      assert log[..n][i] == log[i];
      LastTouchIsLast(log[..n], k, i);
    }
  }

  /** The last insertion of `k` is still within the window at `now`. */
  predicate Live(log: seq<Event>, k: Key, now: nat, window: nat) {
    LastAdd(log, k) >= 0 && !Expired(log[LastAdd(log, k)].time, now, window)
  }

  /** Keys touched in `log`. */
  function Touched(log: seq<Event>): set<Key> {
    set e | e in log && e.Touch? :: e.key
  }

  /** Remembered keys of k's shard touched more recently than `k` and live at `now`. */
  function Ahead(c: Config, log: seq<Event>, k: Key, now: nat): set<Key>
    decreases |log|, 1
  {
    set x | x in Touched(log) && c.shardOf(x) == c.shardOf(k)
            && LastTouch(log, x) > LastTouch(log, k) && Live(log, x, now, c.window) && Resident(c, log, x)
  }

  /** The shard remembers `k` after `log`: its last call touched `k`, or it remembered `k` before,
      `k` had not expired at the last call, and that call left fewer than `cap` keys ahead. */
  predicate Resident(c: Config, log: seq<Event>, k: Key)
    decreases |log|, 0
  {
    log != []
    && var n := |log| - 1;
       var e, before := log[n], log[..n];
       if ShardOfEvent(c, e) != c.shardOf(k) then Resident(c, before, k)
       else if e.Touch? && e.key == k then true
       else
         && Resident(c, before, k)
         && Live(before, k, e.time, c.window)
         && (e.Touch? ==> |Ahead(c, before, k, e.time) + {e.key}| < c.cap)
  }

  /** Other keys of k's shard touched after the last touch of `k`. */
  function OthersSince(c: Config, log: seq<Event>, k: Key): set<Key> {
    set i | LastTouch(log, k) < i < |log| && log[i].Touch? && c.shardOf(log[i].key) == c.shardOf(k)
      :: log[i].key
  }

  /** How many calls inserted a key into shard `s`. */
  function Insertions(c: Config, log: seq<Event>, s: nat): nat {
    if log == [] then 0
    else
      var n := |log| - 1;
      var e := log[n];
      Insertions(c, log[..n], s) + if e.Touch? && e.added && c.shardOf(e.key) == s then 1 else 0
  }

  lemma InsertionsAppend(c: Config, log: seq<Event>, e: Event, s: nat)
    ensures Insertions(c, log + [e], s)
         == Insertions(c, log, s) + if e.Touch? && e.added && c.shardOf(e.key) == s then 1 else 0
  {
    assert (log + [e])[..|log|] == log;
  }

  /** Every call on shard `s` so far happened between the window's length after the origin and `now`. */
  predicate WithinClock(c: Config, log: seq<Event>, s: nat, now: nat) {
    forall i :: 0 <= i < |log| && ShardOfEvent(c, log[i]) == s ==> c.window <= log[i].time <= now
  }

  predicate Touches(e: Event, k: Key) {
    e.Touch? && e.key == k
  }

  lemma TouchAppend(log: seq<Event>, e: Event, k: Key)
    ensures LastTouch(log + [e], k) == if Touches(e, k) then |log| else LastTouch(log, k)
    ensures LastAdd(log + [e], k) == if Touches(e, k) && e.added then |log| else LastAdd(log, k)
  {
    assert (log + [e])[..|log|] == log;
  }

  lemma ResidentAppend(c: Config, log: seq<Event>, e: Event, k: Key)
    ensures Resident(c, log + [e], k) ==
            if ShardOfEvent(c, e) != c.shardOf(k) then Resident(c, log, k)
            else if Touches(e, k) then true
            else
              && Resident(c, log, k) && Live(log, k, e.time, c.window)
              && (e.Touch? ==> |Ahead(c, log, k, e.time) + {e.key}| < c.cap)
  {
    assert (log + [e])[..|log|] == log;
  }

  /** A call on another key adds at most that key to those touched since. */
  lemma OthersAppend(c: Config, log: seq<Event>, e: Event, k: Key)
    requires !Touches(e, k)
    ensures OthersSince(c, log + [e], k)
         == OthersSince(c, log, k) + (if e.Touch? && c.shardOf(e.key) == c.shardOf(k) then {e.key} else {})
  {
    TouchAppend(log, e, k);
    var whole := log + [e];
    forall x | x in OthersSince(c, log, k)
      ensures x in OthersSince(c, whole, k)
    {
      var i :| LastTouch(log, k) < i < |log| && log[i].Touch?
               && c.shardOf(log[i].key) == c.shardOf(k) && log[i].key == x;
      assert whole[i] == log[i];
    }
    if e.Touch? && c.shardOf(e.key) == c.shardOf(k) {
      assert whole[|log|] == e;
    }
  }

  lemma SubsetCard<T>(a: set<T>, b: set<T>)
    requires a <= b
    ensures |a| <= |b|
  {
    assert b == a + (b - a);
  }

  /** No miss: a key whose last insertion lies within the window is remembered as long as fewer
      than `cap` other keys of its shard were touched since. */
  lemma {:induction false} NeverMissed(c: Config, log: seq<Event>, k: Key, now: nat)
    requires WithinClock(c, log, c.shardOf(k), now)
    requires Live(log, k, now, c.window)
    requires |OthersSince(c, log, k)| < c.cap
    ensures Resident(c, log, k)
    decreases |log|
  {
    hide LastTouch, LastAdd, Resident;
    var n := |log| - 1;
    var e, before := log[n], log[..n];
    assert log == before + [e];
    TouchAppend(before, e, k);
    ResidentAppend(c, before, e, k);
    if !Touches(e, k) {
      OthersAppend(c, before, e, k);
      SubsetCard(OthersSince(c, before, k), OthersSince(c, log, k));
      NeverMissed(c, before, k, now);
      if e.Touch? && c.shardOf(e.key) == c.shardOf(k) {
        AheadTouchedSince(c, before, k, e.time);
        SubsetCard(Ahead(c, before, k, e.time) + {e.key}, OthersSince(c, log, k));
      }
    }
  }

  lemma AheadTouchedSince(c: Config, log: seq<Event>, k: Key, now: nat)
    ensures Ahead(c, log, k, now) <= OthersSince(c, log, k)
  {
    forall x | x in Ahead(c, log, k, now)
      ensures x in OthersSince(c, log, k)
    {
      assert log[LastTouch(log, x)].key == x;
    }
  }

  /** No call on a shard reads an earlier clock than what happened to that shard before. */
  predicate Monotone(c: Config, log: seq<Event>) {
    forall i, j :: (0 <= i < j < |log| && log[j].Touch? && ShardOfEvent(c, log[i]) == ShardOfEvent(c, log[j]))
                   ==> log[i].time <= log[j].time
  }

  /** A key touched after a remembered key, and inserted no earlier, is remembered too. */
  lemma {:induction false} KeptInFront(c: Config, log: seq<Event>, k: Key, x: Key)
    requires Monotone(c, log) && c.shardOf(x) == c.shardOf(k)
    requires Resident(c, log, k) && LastTouch(log, x) > LastTouch(log, k)
    requires LastAdd(log, x) >= LastAdd(log, k) >= 0
    ensures Resident(c, log, x)
    decreases |log|
  {
    hide LastTouch, LastAdd, Resident;
    var n := |log| - 1;
    var e, before := log[n], log[..n];
    assert log == before + [e];
    TouchAppend(before, e, x);
    TouchAppend(before, e, k);
    ResidentAppend(c, before, e, x);
    ResidentAppend(c, before, e, k);
    if !Touches(e, x) {
      KeptInFront(c, before, k, x);
      if e.Touch? && c.shardOf(e.key) == c.shardOf(k) {
        var ofX, ofK := Ahead(c, before, x, e.time) + {e.key}, Ahead(c, before, k, e.time) + {e.key};
        assert ofX <= ofK;
        SubsetCard(ofX, ofK);
      }
    }
  }

  /** No key touched since the last touch of `k` was last inserted before `k` was. */
  predicate NoneOlder(c: Config, log: seq<Event>, k: Key) {
    forall x :: x in OthersSince(c, log, k) ==> LastAdd(log, x) >= LastAdd(log, k)
  }

  /** A key touched after a remembered live key, and inserted no earlier, is ahead of it. */
  lemma IsAhead(c: Config, log: seq<Event>, k: Key, x: Key, now: nat)
    requires Monotone(c, log) && c.shardOf(x) == c.shardOf(k)
    requires Resident(c, log, k) && Live(log, k, now, c.window)
    requires LastTouch(log, x) > LastTouch(log, k) && LastAdd(log, x) >= LastAdd(log, k)
    ensures x in Ahead(c, log, k, now)
  {
    KeptInFront(c, log, k, x);
    assert log[LastTouch(log, x)] in log;
  }

  /** A remembered key has fewer than `cap` keys touched since, none of them older. */
  lemma {:induction false} FewSince(c: Config, log: seq<Event>, k: Key)
    requires Monotone(c, log) && c.cap > 0
    requires Resident(c, log, k) && LastAdd(log, k) >= 0 && NoneOlder(c, log, k)
    ensures |OthersSince(c, log, k)| < c.cap
    decreases |log|
  {
    hide LastTouch, LastAdd, Resident, Ahead;
    var n := |log| - 1;
    var e, before := log[n], log[..n];
    assert log == before + [e];
    TouchAppend(before, e, k);
    ResidentAppend(c, before, e, k);
    if Touches(e, k) {
      assert OthersSince(c, log, k) == {};
    } else if e.Touch? && c.shardOf(e.key) == c.shardOf(k) {
      var ahead := Ahead(c, before, k, e.time) + {e.key};
      forall x | x in OthersSince(c, log, k)
        ensures x in ahead
      {
        TouchAppend(before, e, x);
        if x != e.key {
          var i :| LastTouch(log, k) < i < |log| && log[i].Touch? && log[i].key == x;
          LastTouchIsLast(log, x, i);
          IsAhead(c, before, k, x, e.time);
        }
      }
      SubsetCard(OthersSince(c, log, k), ahead);
    } else {
      OthersAppend(c, before, e, k);
      forall x | x in OthersSince(c, before, k)
        ensures LastAdd(before, x) >= LastAdd(before, k)
      {
        TouchAppend(before, e, x);
      }
      FewSince(c, before, k);
    }
  }

  /** When no key touched since was inserted before `k`, a live `k` is remembered exactly when
      fewer than `cap` other keys of its shard were touched since. */
  lemma ExactWhenNoneOlder(c: Config, log: seq<Event>, k: Key, now: nat)
    requires Monotone(c, log) && WithinClock(c, log, c.shardOf(k), now) && c.cap > 0
    requires Live(log, k, now, c.window) && NoneOlder(c, log, k)
    ensures Resident(c, log, k) <==> |OthersSince(c, log, k)| < c.cap
  {
    if Resident(c, log, k) {
      FewSince(c, log, k);
    } else if |OthersSince(c, log, k)| < c.cap {
      NeverMissed(c, log, k, now);
    }
  }

  // ---- The exact condition ----

  /** Other keys of k's shard touched after `k` and still within the window at `now`. */
  function LiveSince(c: Config, log: seq<Event>, k: Key, now: nat): set<Key> {
    set x | x in OthersSince(c, log, k) && Live(log, x, now, c.window)
  }

  /** Call `j` is on k's shard and finds, its own key included, `cap` live keys touched after `k`. */
  predicate CrowdsOut(c: Config, log: seq<Event>, k: Key, j: nat)
    requires j < |log|
  {
    && log[j].Touch? && c.shardOf(log[j].key) == c.shardOf(k)
    && |LiveSince(c, log[..j], k, log[j].time) + {log[j].key}| >= c.cap
  }

  /** No call since the last touch of `k` crowded it out. */
  predicate NeverCrowded(c: Config, log: seq<Event>, k: Key) {
    forall j :: LastTouch(log, k) < j < |log| ==> !CrowdsOut(c, log, k, j)
  }

  /** The answer a check owes: inserted within the window, and not crowded out since. */
  predicate Remembered(c: Config, log: seq<Event>, k: Key, now: nat) {
    Live(log, k, now, c.window) && NeverCrowded(c, log, k)
  }

  /** Past the origin, what is live at `now` was live at every earlier moment. */
  lemma LiveEarlier(log: seq<Event>, k: Key, earlier: nat, now: nat, window: nat)
    requires window <= earlier <= now && Live(log, k, now, window)
    ensures Live(log, k, earlier, window)
  {
  }

  /** A key touched after a remembered key, and still live, is remembered too. */
  lemma {:induction false} LiveInFront(c: Config, log: seq<Event>, k: Key, x: Key, now: nat)
    requires WithinClock(c, log, c.shardOf(k), now) && c.shardOf(x) == c.shardOf(k)
    requires Resident(c, log, k) && LastTouch(log, x) > LastTouch(log, k)
    requires Live(log, x, now, c.window)
    ensures Resident(c, log, x)
    decreases |log|
  {
    hide LastTouch, LastAdd, Resident;
    var n := |log| - 1;
    var e, before := log[n], log[..n];
    assert log == before + [e];
    TouchAppend(before, e, x);
    TouchAppend(before, e, k);
    ResidentAppend(c, before, e, x);
    ResidentAppend(c, before, e, k);
    if !Touches(e, x) {
      LiveInFront(c, before, k, x, now);
      if ShardOfEvent(c, e) == c.shardOf(k) {
        LiveEarlier(before, x, e.time, now, c.window);
        if e.Touch? {
          var ofX, ofK := Ahead(c, before, x, e.time) + {e.key}, Ahead(c, before, k, e.time) + {e.key};
          assert ofX <= ofK;
          SubsetCard(ofX, ofK);
        }
      }
    }
  }

  /** So the keys ahead of a remembered key are simply those touched since and live. */
  lemma AheadIsLiveSince(c: Config, log: seq<Event>, k: Key, now: nat)
    requires WithinClock(c, log, c.shardOf(k), now) && Resident(c, log, k)
    ensures Ahead(c, log, k, now) == LiveSince(c, log, k, now)
  {
    hide LastTouch, LastAdd, Resident;
    AheadTouchedSince(c, log, k, now);
    forall x | x in LiveSince(c, log, k, now)
      ensures x in Ahead(c, log, k, now)
    {
      var i :| LastTouch(log, k) < i < |log| && log[i].Touch?
               && c.shardOf(log[i].key) == c.shardOf(k) && log[i].key == x;
      LastTouchIsLast(log, x, i);
      LiveInFront(c, log, k, x, now);
    }
  }

  lemma CrowdedAppend(c: Config, log: seq<Event>, e: Event, k: Key)
    requires !Touches(e, k)
    ensures NeverCrowded(c, log + [e], k) <==> NeverCrowded(c, log, k) && !CrowdsOut(c, log + [e], k, |log|)
  {
    hide LastTouch, LiveSince;
    var whole := log + [e];
    TouchAppend(log, e, k);
    forall j | 0 <= j < |log|
      ensures CrowdsOut(c, whole, k, j) <==> CrowdsOut(c, log, k, j)
    {
      assert whole[..j] == log[..j];
    }
    if NeverCrowded(c, whole, k) {
      assert !CrowdsOut(c, whole, k, |log|);
    }
  }

  /** Exactly when is a live key remembered? As long as no call since its last touch found the shard
      full of other keys that were touched after it and live at that moment. */
  lemma {:induction false} RememberedExactly(c: Config, log: seq<Event>, k: Key, now: nat)
    requires Monotone(c, log) && WithinClock(c, log, c.shardOf(k), now)
    requires Live(log, k, now, c.window)
    ensures Resident(c, log, k) <==> NeverCrowded(c, log, k)
    decreases |log|
  {
    hide LastTouch, LastAdd, Resident, Ahead, LiveSince;
    var n := |log| - 1;
    var e, before := log[n], log[..n];
    assert log == before + [e];
    TouchAppend(before, e, k);
    ResidentAppend(c, before, e, k);
    if !Touches(e, k) {
      CrowdedAppend(c, before, e, k);
      RememberedExactly(c, before, k, now);
      if ShardOfEvent(c, e) == c.shardOf(k) {
        LiveEarlier(before, k, e.time, now, c.window);
        if e.Touch? && Resident(c, before, k) {
          AheadIsLiveSince(c, before, k, e.time);
        }
      }
    }
  }

  /** Exactly when does counting the keys touched since give the right answer? When they are fewer
      than `cap`, or some call found `cap` of them live at once. */
  lemma CountingExact(c: Config, log: seq<Event>, k: Key, now: nat)
    requires Monotone(c, log) && WithinClock(c, log, c.shardOf(k), now)
    requires Live(log, k, now, c.window)
    ensures (Resident(c, log, k) <==> |OthersSince(c, log, k)| < c.cap)
       <==> (|OthersSince(c, log, k)| < c.cap || exists j :: LastTouch(log, k) < j < |log| && CrowdsOut(c, log, k, j))
  {
    RememberedExactly(c, log, k, now);
    if |OthersSince(c, log, k)| < c.cap {
      NeverMissed(c, log, k, now);
    }
  }

  /** Counting touched keys alone does not decide: here two other keys were touched since `k`, the
      capacity is two, and `k` is still remembered because one of them had expired in between. */
  lemma CountingTouchesIsNotEnough(c: Config, log: seq<Event>)
    requires c.cap == 2 && c.window == 10 && c.shardOf([1]) == c.shardOf([2]) == c.shardOf([3])
    requires log == [Touch([1], 10, true), Touch([2], 15, true), Touch([1], 16, false), Touch([3], 21, true)]
    ensures Monotone(c, log) && WithinClock(c, log, c.shardOf([2]), 21) && Live(log, [2], 21, c.window)
    ensures |OthersSince(c, log, [2])| == c.cap && Resident(c, log, [2])
  {
    hide LastTouch, LastAdd, Resident;
    StillRemembered(c, log[0], log[1], log[2], log[3]);
    assert log == [log[0], log[1], log[2], log[3]];
    assert OthersSince(c, log, [2]) == {log[2].key, log[3].key};
    assert log[2].key[0] != log[3].key[0];
  }

  lemma StillRemembered(c: Config, a: Event, k: Event, a2: Event, b: Event)
    requires c.cap == 2 && c.window == 10 && c.shardOf([1]) == c.shardOf([2]) == c.shardOf([3])
    requires a == Touch([1], 10, true) && k == Touch([2], 15, true)
    requires a2 == Touch([1], 16, false) && b == Touch([3], 21, true)
    ensures var log := [a, k, a2, b];
            LastTouch(log, [2]) == 1 && Live(log, [2], 21, 10) && Resident(c, log, [2])
  {
    hide LastTouch, LastAdd, Resident;
    var one: Key, two: Key, three: Key := [1], [2], [3];
    assert one[0] != two[0] && two[0] != three[0] && one[0] != three[0];
    var l0: seq<Event> := [];
    var l1, l2, l3 := l0 + [a], l0 + [a] + [k], l0 + [a] + [k] + [a2];
    TouchAppend(l0, a, two);
    TouchAppend(l1, k, two);
    TouchAppend(l2, a2, two);
    TouchAppend(l3, b, two);
    TouchAppend(l0, a, one);
    TouchAppend(l1, k, one);
    TouchAppend(l2, a2, one);
    ResidentAppend(c, l1, k, two);
    assert Ahead(c, l2, two, 16) == {};
    ResidentAppend(c, l2, a2, two);
    assert Ahead(c, l3, two, 21) == {};
    ResidentAppend(c, l3, b, two);
    assert [a, k, a2, b] == l3 + [b];
  }

  /** Other keys of k's shard touched strictly between calls `i` and `j`. */
  function OthersBetween(c: Config, log: seq<Event>, i: nat, j: nat, k: Key): set<Key>
    requires i <= j <= |log|
  {
    set p | i < p < j && log[p].Touch? && c.shardOf(log[p].key) == c.shardOf(k) && log[p].key != k :: log[p].key
  }

  /** If `k` was inserted by call `i` and unknown again at call `j`, then the calls are more than
      the window apart or at least `cap` other keys of the shard were touched in between. */
  lemma InsertedTwice(c: Config, log: seq<Event>, i: nat, j: nat, k: Key)
    requires i < j < |log| && Touches(log[i], k) && log[i].added && Touches(log[j], k)
    requires Monotone(c, log) && WithinClock(c, log[..j], c.shardOf(k), log[j].time) && log[j].time >= c.window
    requires !(Live(log[..j], k, log[j].time, c.window) && Resident(c, log[..j], k))
    ensures (c.window > 0 && log[j].time - log[i].time > c.window) || |OthersBetween(c, log, i, j, k)| >= c.cap
  {
    hide LastTouch, LastAdd, Resident;
    var before := log[..j];
    assert before[i] == log[i];
    LastTouchIsLast(before, k, i);
    var added := LastAdd(before, k);
    assert log[added].time >= log[i].time;
    if Live(before, k, log[j].time, c.window) {
      if |OthersSince(c, before, k)| < c.cap {
        NeverMissed(c, before, k, log[j].time);
      }
      forall x | x in OthersSince(c, before, k)
        ensures x in OthersBetween(c, log, i, j, k)
      {
        var p :| LastTouch(before, k) < p < j && before[p].Touch?
                 && c.shardOf(before[p].key) == c.shardOf(k) && before[p].key == x;
        if x == k {
          LastTouchIsLast(before, k, p);
        }
        assert log[p] == before[p];
      }
      SubsetCard(OthersSince(c, before, k), OthersBetween(c, log, i, j, k));
    }
  }

  /** The window law "expired means older than the window" holds of the cutoff exactly when the
      window is off, fits before `now`, or the entry is from this very instant. */
  lemma CutoffExact(time: nat, now: nat, window: nat)
    requires time <= now
    ensures (Expired(time, now, window) <==> window > 0 && now - time > window)
       <==> (window == 0 || now >= window || time == now)
  {
  }

  /** Closer to the origin than a window, an insertion is forgotten as soon as the clock moves. */
  lemma ForgottenNearOrigin(log: seq<Event>, k: Key, now: nat, window: nat)
    requires now < window && LastAdd(log, k) >= 0
    ensures Live(log, k, now, window) <==> log[LastAdd(log, k)].time >= now
  {
  }
}
