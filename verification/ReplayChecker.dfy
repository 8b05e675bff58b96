/** `ReplayChecker`: 64 shards behind one hash (src/stats/mod.rs). */
module ReplayCheckers {
  import opened ReplaySpec
  import opened ReplayShards
  import opened ReplayRefinement

  const NUM_SHARDS: nat := 64

  /** The shards share the total evenly, rounding down, but hold at least one key each. */
  function ShardCapacity(totalCapacity: nat): (cap: nat)
    ensures cap > 0
  {
    var perShard := totalCapacity / NUM_SHARDS;
    if perShard < 1 then 1 else perShard
  }

  lemma ShardShare(totalCapacity: nat)
    ensures var cap := ShardCapacity(totalCapacity);
            if totalCapacity < NUM_SHARDS then cap == 1
            else NUM_SHARDS * cap <= totalCapacity < NUM_SHARDS * (cap + 1)
  {
    var share, rest := totalCapacity / NUM_SHARDS, totalCapacity % NUM_SHARDS;
    assert totalCapacity == NUM_SHARDS * share + rest;
  }

  class ReplayChecker {
    const shards: seq<ReplayShard>
    const config: Config
    var checks: nat
    var hits: nat
    var additions: nat
    /** History of all shards, and the number of unconditional additions in it. */
    ghost var log: seq<Event>
    ghost var addOnlys: nat

    ghost predicate ShardOk(s: nat, history: seq<Event>)
      requires s < |shards|
      reads shards[s]
    {
      && shards[s].Valid() && shards[s].cap == config.cap && Tracks(config, shards[s].cache, history, s)
      && shards[s].seqCounter == Insertions(config, history, s)
      && (config.window == 0 ==> shards[s].gone == [])
    }

    /** Every shard remembers what the common history says; every check was a hit or an addition. */
    ghost predicate Valid()
      reads this, shards
      ensures Valid() ==> |shards| == NUM_SHARDS && forall k :: config.shardOf(k) < NUM_SHARDS
    {
      && |shards| == NUM_SHARDS && (forall k :: config.shardOf(k) < NUM_SHARDS)
      && (forall i, j :: 0 <= i < j < |shards| ==> shards[i] != shards[j])
      && (forall s :: 0 <= s < |shards| ==> ShardOk(s, log))
      && checks + addOnlys == hits + additions
    }

    /** `shardOf` is the key's hash masked to a shard index. */
    constructor (shardOf: Key -> nat, totalCapacity: nat, window: nat)
      requires forall k :: shardOf(k) < NUM_SHARDS
      ensures Valid() && (forall s :: s in shards ==> fresh(s) && s.clock == 0)
      ensures log == [] && config == Config(shardOf, ShardCapacity(totalCapacity), window)
    {
      var cap := ShardCapacity(totalCapacity);
      config := Config(shardOf, cap, window);
      checks, hits, additions, log, addOnlys := 0, 0, 0, [], 0;
      var all: seq<ReplayShard> := [];
      for i := 0 to NUM_SHARDS
        invariant |all| == i
        invariant forall s :: s in all ==> fresh(s) && s.clock == 0 && s.Valid() && s.cap == cap && s.cache == []
        invariant forall s :: s in all ==> s.Inserted() == []
        invariant forall a, b :: 0 <= a < b < |all| ==> all[a] != all[b]
      {
        var shard := new ReplayShard(cap);
        all := all + [shard];
      }
      shards := all;
    }

    /** A call on one shard does not concern the others. */
    lemma OthersUnaffected(before: seq<Event>, e: Event)
      requires forall s :: 0 <= s < |shards| && s != ShardOfEvent(config, e) ==> ShardOk(s, before)
      ensures forall s :: 0 <= s < |shards| && s != ShardOfEvent(config, e) ==> ShardOk(s, before + [e])
    {
      hide Tracks, Insertions, ReplayShard.Valid;
      forall s | 0 <= s < |shards| && s != ShardOfEvent(config, e)
        ensures ShardOk(s, before + [e])
      {
        assert ShardOk(s, before);
        OtherShard(config, shards[s].cache, before, s, e);
        InsertionsAppend(config, before, e, s);
      }
    }

    /** A zero window means the queue grows with every insertion; otherwise it holds no more than
        was ever inserted (and, after each call, no more than was inserted within the window). */
    lemma QueueLength(s: nat)
      requires Valid() && s < NUM_SHARDS
      ensures |shards[s].queue| <= Insertions(config, log, s)
      ensures config.window == 0 ==> |shards[s].queue| == Insertions(config, log, s)
    {
      assert ShardOk(s, log);
    }

    /** True when `key` was remembered; otherwise it is inserted. One call is atomic: the shard is
        locked and the clock read under the lock. */
    method CheckAndAdd(key: Key, now: nat) returns (found: bool)
      requires Valid() && shards[config.shardOf(key)].clock <= now
      modifies this`checks, this`hits, this`additions, this`log, shards[config.shardOf(key)]
      ensures Valid() && shards[config.shardOf(key)].clock <= now
      ensures found <==> Resident(config, old(log), key) && Live(old(log), key, now, config.window)
      ensures Monotone(config, old(log)) && WithinClock(config, old(log), config.shardOf(key), now) ==>
                (found <==> Remembered(config, old(log), key, now))
      ensures log == old(log) + [Touch(key, now, !found)]
      ensures checks == old(checks) + 1
      ensures hits == old(hits) + (if found then 1 else 0)
      ensures additions == old(additions) + (if found then 0 else 1)
    {
      hide Resident, LastTouch, LastAdd, Live, NeverCrowded, Monotone, WithinClock;
      hide Tracks, Unexpired, Put, Promote, Keys, Within, Insertions, ReplayShard.Valid;
      var idx := config.shardOf(key);
      assert ShardOk(idx, log);
      var shard := shards[idx];
      KnownExactly(config, log, key, now);
      shard.Bounded();
      CheckOrAddStep(config, shard.cache, log, idx, Item(key, now, shard.seqCounter + 1));
      found := CheckOrAdd(shard, key, now, config.window);
      if found {
        hits := hits + 1;
      } else {
        additions := additions + 1;
      }
      checks := checks + 1;
      OthersUnaffected(log, Touch(key, now, !found));
      InsertionsAppend(config, log, Touch(key, now, !found), idx);
      log := log + [Touch(key, now, !found)];
    }

    /** Insert `key` without checking. */
    method AddOnly(key: Key, now: nat)
      requires Valid() && shards[config.shardOf(key)].clock <= now
      modifies this`additions, this`log, this`addOnlys, shards[config.shardOf(key)]
      ensures Valid() && shards[config.shardOf(key)].clock <= now
      ensures log == old(log) + [Touch(key, now, true)]
      ensures additions == old(additions) + 1
    {
      hide Resident, LastTouch, LastAdd, Tracks, Unexpired, Put, Within, Insertions;
      var idx := config.shardOf(key);
      assert ShardOk(idx, log);
      additions, addOnlys := additions + 1, addOnlys + 1;
      var shard := shards[idx];
      AddStep(config, shard.cache, log, idx, Item(key, now, shard.seqCounter + 1));
      shard.Add(key, now, config.window);
      OthersUnaffected(log, Touch(key, now, true));
      InsertionsAppend(config, log, Touch(key, now, true), idx);
      log := log + [Touch(key, now, true)];
    }

    /** One shard's turn of the periodic cleanup; `now` was read before the shard was locked. */
    method CleanShard(idx: nat, now: nat)
      requires Valid() && idx < NUM_SHARDS
      modifies this`log, shards[idx]
      ensures Valid() && shards[idx].clock == old(shards[idx].clock)
      ensures log == old(log) + [Sweep(idx, now)]
    {
      hide Resident, LastTouch, LastAdd, Tracks, Unexpired, Within, Insertions;
      assert ShardOk(idx, log);
      Swept(config, shards[idx].cache, log, idx, now);
      shards[idx].Cleanup(now, config.window);
      OthersUnaffected(log, Sweep(idx, now));
      InsertionsAppend(config, log, Sweep(idx, now), idx);
      log := log + [Sweep(idx, now)];
    }
  }

  datatype Op = Check(key: Key, time: nat) | Insert(key: Key, time: nat) | Clean(shard: nat, time: nat)

  /** The event a call leaves in the history; only `added` depends on the answer. */
  predicate Records(op: Op, e: Event) {
    match op
    case Check(key, time) => e.Touch? && e.key == key && e.time == time
    case Insert(key, time) => e == Touch(key, time, true)
    case Clean(shard, time) => e == Sweep(shard, time)
  }

  function ShardOfOp(c: Config, op: Op): nat {
    if op.Clean? then op.shard else c.shardOf(op.key)
  }

  predicate SameShardAsLater(c: Config, ops: seq<Op>, i: nat, j: nat)
    requires i < |ops| && j < |ops|
  {
    i < j && !ops[j].Clean? && ShardOfOp(c, ops[i]) == ShardOfOp(c, ops[j])
  }

  /** The clock is read under the shard's lock. */
  predicate Clocked(c: Config, ops: seq<Op>) {
    && (forall i :: 0 <= i < |ops| && ops[i].Clean? ==> ops[i].shard < NUM_SHARDS)
    && forall i, j :: (0 <= i < |ops| && 0 <= j < |ops| && SameShardAsLater(c, ops, i, j))
                      ==> ops[i].time <= ops[j].time
  }

  /** The clock's origin lies at least a window before every call. */
  predicate PastOrigin(c: Config, ops: seq<Op>) {
    forall i :: 0 <= i < |ops| ==> c.window <= ops[i].time
  }

  predicate AllRecord(ops: seq<Op>, events: seq<Event>) {
    |ops| == |events| && forall i :: 0 <= i < |ops| ==> Records(ops[i], events[i])
  }

  /** Past the clock's origin, that is: exactly when its key was not inserted within the window or
      was crowded out since. */
  predicate AnsweredExactly(c: Config, ops: seq<Op>, events: seq<Event>, i: nat)
    requires AllRecord(ops, events) && i < |ops|
  {
    ops[i].Check? ==> (events[i].added <==> !Remembered(c, events[..i], ops[i].key, ops[i].time))
  }

  /** Call `i` was answered "not seen" exactly when its key was not remembered or had expired. */
  predicate Answered(c: Config, ops: seq<Op>, events: seq<Event>, i: nat)
    requires AllRecord(ops, events) && i < |ops|
  {
    ops[i].Check? ==>
      (events[i].added <==>
       !(Resident(c, events[..i], ops[i].key) && Live(events[..i], ops[i].key, ops[i].time, c.window)))
  }

  /** Call `j` let a key in that call `i` had inserted, though not more than the window had
      passed and fewer than `cap` other keys of the shard were touched in between. */
  predicate Replayed(c: Config, events: seq<Event>, i: nat, j: nat)
    requires i < j < |events|
  {
    && events[i].Touch? && events[i].added && Touches(events[j], events[i].key) && events[j].added
    && (c.window > 0 ==> events[j].time - events[i].time <= c.window)
    && |OthersBetween(c, events, i, j, events[i].key)| < c.cap
  }

  /** Calls `i` and `j` both let the same key in, with not more than the window between them. */
  predicate LetInTwice(c: Config, events: seq<Event>, i: nat, j: nat)
    requires i < j < |events|
  {
    && events[i].Touch? && events[i].added && Touches(events[j], events[i].key) && events[j].added
    && (c.window > 0 ==> events[j].time - events[i].time <= c.window)
  }

  /** Then other keys came between them: at least one, and more than the shard's share of the total. */
  lemma LetInTwiceNeedsOthers(c: Config, events: seq<Event>, totalCapacity: nat, i: nat, j: nat)
    requires i < j < |events| && c.cap == ShardCapacity(totalCapacity)
    requires LetInTwice(c, events, i, j) && !Replayed(c, events, i, j)
    ensures var others := |OthersBetween(c, events, i, j, events[i].key)|;
            others >= 1 && NUM_SHARDS * (others + 1) > totalCapacity
  {
    hide OthersBetween, ShardCapacity;
    ShardShare(totalCapacity);
  }

  lemma ClockedHistory(c: Config, ops: seq<Op>, events: seq<Event>, j: nat)
    requires AllRecord(ops, events) && Clocked(c, ops) && PastOrigin(c, ops) && j < |ops| && !ops[j].Clean?
    ensures Monotone(c, events)
    ensures WithinClock(c, events[..j], ShardOfOp(c, ops[j]), events[j].time) && events[j].time >= c.window
  {
    forall a, b | 0 <= a < b < |events| && events[a].Touch? && events[b].Touch?
                  && c.shardOf(events[a].key) == c.shardOf(events[b].key)
      ensures events[a].time <= events[b].time
    {
      assert Records(ops[a], events[a]) && Records(ops[b], events[b]);
      assert SameShardAsLater(c, ops, a, b);
    }
    forall a | 0 <= a < j && ShardOfEvent(c, events[a]) == ShardOfOp(c, ops[j])
      ensures c.window <= events[a].time <= events[j].time
    {
      assert Records(ops[a], events[a]) && Records(ops[j], events[j]);
      assert SameShardAsLater(c, ops, a, j);
    }
  }

  /** Correct answers let no replay through. */
  lemma NoReplay(c: Config, ops: seq<Op>, events: seq<Event>, i: nat, j: nat)
    requires AllRecord(ops, events) && Clocked(c, ops) && PastOrigin(c, ops) && i < j < |ops|
    requires ops[j].Check? && Answered(c, ops, events, j)
    ensures !Replayed(c, events, i, j)
  {
    hide Resident, LastTouch, LastAdd;
    if Replayed(c, events, i, j) {
      assert Records(ops[j], events[j]);
      ClockedHistory(c, ops, events, j);
      InsertedTwice(c, events, i, j, events[i].key);
    }
  }

  lemma AnswersAreExact(c: Config, ops: seq<Op>, events: seq<Event>, i: nat)
    requires AllRecord(ops, events) && Clocked(c, ops) && PastOrigin(c, ops) && i < |ops|
    requires Answered(c, ops, events, i)
    ensures AnsweredExactly(c, ops, events, i)
  {
    hide Resident, LastTouch, LastAdd, Live, NeverCrowded, WithinClock;
    if ops[i].Check? {
      assert Records(ops[i], events[i]);
      ClockedHistory(c, ops, events, i);
      KnownExactly(c, events[..i], ops[i].key, ops[i].time);
    }
  }

  /** One operation; `found` answers a check. */
  method Act(checker: ReplayChecker, op: Op) returns (e: Event)
    requires checker.Valid()
    requires if op.Clean? then op.shard < NUM_SHARDS
             else checker.shards[checker.config.shardOf(op.key)].clock <= op.time
    modifies checker, checker.shards[ShardOfOp(checker.config, op)]
    ensures checker.Valid() && checker.log == old(checker.log) + [e] && Records(op, e)
    ensures op.Clean? ==> checker.shards[op.shard].clock == old(checker.shards[op.shard].clock)
    ensures !op.Clean? ==> checker.shards[checker.config.shardOf(op.key)].clock <= op.time
    ensures op.Check? ==>
              (e.added <==> !(Resident(checker.config, old(checker.log), op.key)
                              && Live(old(checker.log), op.key, op.time, checker.config.window)))
  {
    hide ReplayChecker.Valid, Resident, LastAdd;
    match op {
      case Check(key, time) =>
        var found := checker.CheckAndAdd(key, time);
        e := Touch(key, time, !found);
      case Insert(key, time) =>
        checker.AddOnly(key, time);
        e := Touch(key, time, true);
      case Clean(shard, time) =>
        checker.CleanShard(shard, time);
        e := Sweep(shard, time);
    }
  }

  /** Every interleaving of atomic calls on all shards: each answer is the one the history
      demands, and, away from the clock's origin, no replay is let through. */
  method Run(shardOf: Key -> nat, totalCapacity: nat, window: nat, ops: seq<Op>) returns (events: seq<Event>)
    requires forall k :: shardOf(k) < NUM_SHARDS
    requires Clocked(Config(shardOf, ShardCapacity(totalCapacity), window), ops)
    ensures AllRecord(ops, events)
    ensures var c := Config(shardOf, ShardCapacity(totalCapacity), window);
            && (forall i :: 0 <= i < |ops| ==> Answered(c, ops, events, i))
            && (PastOrigin(c, ops) ==> forall i :: 0 <= i < |ops| ==> AnsweredExactly(c, ops, events, i))
            && (PastOrigin(c, ops) ==>
                  forall i, j :: 0 <= i < j < |ops| && ops[j].Check? ==> !Replayed(c, events, i, j))
            && (PastOrigin(c, ops) ==>
                  forall i, j :: 0 <= i < j < |ops| && ops[j].Check? && LetInTwice(c, events, i, j) ==>
                    var others := |OthersBetween(c, events, i, j, events[i].key)|;
                    others >= 1 && NUM_SHARDS * (others + 1) > totalCapacity)
  {
    hide ReplayChecker.Valid, Resident, LastAdd, LastTouch, OthersBetween, Remembered, Live;
    var checker := new ReplayChecker(shardOf, totalCapacity, window);
    ghost var c := checker.config;
    events := [];
    for i := 0 to |ops|
      invariant checker.Valid() && checker.log == events
      invariant forall s :: s in checker.shards ==> fresh(s)
      invariant AllRecord(ops[..i], events)
      invariant forall j :: i <= j < |ops| && !ops[j].Clean? ==>
                              checker.shards[c.shardOf(ops[j].key)].clock <= ops[j].time
      invariant forall j :: 0 <= j < i ==> Answered(c, ops[..i], events, j)
    {
      assert checker.shards[ShardOfOp(c, ops[i])] in checker.shards;
      var e := Act(checker, ops[i]);
      ghost var before, done := events, ops[..i + 1];
      events := events + [e];
      forall j | 0 <= j < |done|
        ensures Answered(c, done, events, j)
      {
        assert events[..j] == before[..j];
        if j < i {
          assert Answered(c, ops[..i], before, j);
        }
      }
      forall j | i + 1 <= j < |ops| && !ops[j].Clean?
        ensures checker.shards[c.shardOf(ops[j].key)].clock <= ops[j].time
      {
        assert SameShardAsLater(c, ops, i, j) || ShardOfOp(c, ops[i]) != c.shardOf(ops[j].key);
      }
    }
    assert ops[..|ops|] == ops;
    forall i | PastOrigin(c, ops) && 0 <= i < |ops|
      ensures AnsweredExactly(c, ops, events, i)
    {
      AnswersAreExact(c, ops, events, i);
    }
    forall i, j | PastOrigin(c, ops) && 0 <= i < j < |ops| && ops[j].Check?
      ensures !Replayed(c, events, i, j)
    {
      NoReplay(c, ops, events, i, j);
    }
    forall i, j | PastOrigin(c, ops) && 0 <= i < j < |ops| && ops[j].Check? && LetInTwice(c, events, i, j)
      ensures var others := |OthersBetween(c, events, i, j, events[i].key)|;
              others >= 1 && NUM_SHARDS * (others + 1) > totalCapacity
    {
      LetInTwiceNeedsOthers(c, events, totalCapacity, i, j);
    }
  }
}
