/** The shard's cache holds exactly the keys its history says are remembered. */
module ReplayRefinement {
  import opened Bytes
  import opened ReplaySpec
  import opened ReplayShards

  /** Entries stand in the order of their last touch. */
  predicate Ordered(items: seq<Item>, log: seq<Event>) {
    forall i, j :: 0 <= i < j < |items| ==> LastTouch(log, items[i].key) > LastTouch(log, items[j].key)
  }

  /** Entries belong to shard `s` and carry the time of their last insertion. */
  predicate Stamped(c: Config, items: seq<Item>, log: seq<Event>, s: nat) {
    forall it :: it in items ==>
      c.shardOf(it.key) == s && LastAdd(log, it.key) >= 0 && log[LastAdd(log, it.key)].time == it.seenAt
  }

  /** The refinement relation of shard `s`. */
  ghost predicate Tracks(c: Config, items: seq<Item>, log: seq<Event>, s: nat) {
    && Ordered(items, log) && Stamped(c, items, log, s)
    && forall k: Key :: c.shardOf(k) == s ==> (k in Keys(items) <==> Resident(c, log, k))
  }

  /** The same just after expired entries were dropped at `now`. */
  ghost predicate TracksAt(c: Config, items: seq<Item>, log: seq<Event>, s: nat, now: nat) {
    && Ordered(items, log) && Stamped(c, items, log, s)
    && forall k: Key :: c.shardOf(k) == s ==>
                          (k in Keys(items) <==> Resident(c, log, k) && Live(log, k, now, c.window))
  }

  lemma OrderedIsDistinct(items: seq<Item>, log: seq<Event>)
    requires Ordered(items, log)
    ensures Distinct(items)
  {
  }

  lemma {:induction false} OrderedWithout(items: seq<Item>, key: Key, log: seq<Event>)
    requires Ordered(items, log)
    ensures Ordered(Without(items, key), log)
  {
    hide LastTouch;
    if items != [] {
      OrderedWithout(items[1..], key, log);
    }
  }

  lemma {:induction false} OrderedUnexpired(items: seq<Item>, now: nat, window: nat, log: seq<Event>)
    requires Ordered(items, log)
    ensures Ordered(Unexpired(items, now, window), log)
  {
    hide LastTouch;
    if items != [] {
      OrderedUnexpired(items[1..], now, window, log);
    }
  }

  lemma {:induction false} KeysCard(items: seq<Item>)
    requires Distinct(items)
    ensures |Keys(items)| == |items|
  {
    if items == [] {
      assert Keys(items) == {};
    } else {
      KeysCard(items[1..]);
      KeysCons(items);
    }
  }

  lemma KeysCons(items: seq<Item>)
    requires items != [] && Distinct(items)
    ensures Keys(items) == {items[0].key} + Keys(items[1..]) && items[0].key !in Keys(items[1..])
  {
    assert items == [items[0]] + items[1..];
  }

  /** Dropping expired entries leaves the remembered live keys. */
  lemma AfterCleanup(c: Config, items: seq<Item>, log: seq<Event>, s: nat, now: nat)
    requires Tracks(c, items, log, s)
    ensures TracksAt(c, Unexpired(items, now, c.window), log, s, now)
  {
    hide LastTouch, LastAdd, Resident;
    var kept := Unexpired(items, now, c.window);
    OrderedUnexpired(items, now, c.window, log);
    forall k: Key | c.shardOf(k) == s
      ensures k in Keys(kept) <==> Resident(c, log, k) && Live(log, k, now, c.window)
    {
      if Resident(c, log, k) {
        var it :| it in items && it.key == k;
        assert it in kept <==> Live(log, k, now, c.window);
        if k in Keys(kept) {
          var other :| other in kept && other.key == k;
          assert other.seenAt == it.seenAt;
        }
      }
    }
  }

  /** Calls on other shards do not concern this one. */
  lemma OtherShard(c: Config, items: seq<Item>, log: seq<Event>, s: nat, e: Event)
    requires Tracks(c, items, log, s) && ShardOfEvent(c, e) != s
    ensures Tracks(c, items, log + [e], s)
  {
    hide LastTouch, LastAdd, Resident;
    forall k: Key | c.shardOf(k) == s
      ensures LastTouch(log + [e], k) == LastTouch(log, k) && LastAdd(log + [e], k) == LastAdd(log, k)
      ensures Resident(c, log + [e], k) == Resident(c, log, k)
    {
      TouchAppend(log, e, k);
      ResidentAppend(c, log, e, k);
    }
  }

  /** A cleanup pass. */
  lemma Swept(c: Config, items: seq<Item>, log: seq<Event>, s: nat, now: nat)
    requires Tracks(c, items, log, s)
    ensures Tracks(c, Unexpired(items, now, c.window), log + [Sweep(s, now)], s)
  {
    hide LastTouch, LastAdd, Resident;
    var kept, e := Unexpired(items, now, c.window), Sweep(s, now);
    AfterCleanup(c, items, log, s, now);
    forall k: Key | c.shardOf(k) == s
      ensures LastTouch(log + [e], k) == LastTouch(log, k) && LastAdd(log + [e], k) == LastAdd(log, k)
      ensures Resident(c, log + [e], k) <==> k in Keys(kept)
    {
      TouchAppend(log, e, k);
      ResidentAppend(c, log, e, k);
    }
  }

  /** The keys ahead of an entry are the entries before it. */
  lemma AheadIsBefore(c: Config, kept: seq<Item>, log: seq<Event>, s: nat, now: nat, p: nat)
    requires TracksAt(c, kept, log, s, now) && p < |kept|
    ensures Ahead(c, log, kept[p].key, now) == Keys(kept[..p])
    ensures |Ahead(c, log, kept[p].key, now)| == p
  {
    hide LastTouch, LastAdd, Resident, Ahead, TracksAt;
    AheadAreBefore(c, kept, log, s, now, p);
    BeforeAreAhead(c, kept, log, s, now, p);
    assert Ordered(kept, log) by { TracksOrder(c, kept, log, s, now); }
    OrderedIsDistinct(kept, log);
    KeysCard(kept[..p]);
  }

  lemma TracksOrder(c: Config, kept: seq<Item>, log: seq<Event>, s: nat, now: nat)
    requires TracksAt(c, kept, log, s, now)
    ensures Ordered(kept, log)
  {
  }

  lemma AheadAreBefore(c: Config, kept: seq<Item>, log: seq<Event>, s: nat, now: nat, p: nat)
    requires TracksAt(c, kept, log, s, now) && p < |kept|
    ensures Ahead(c, log, kept[p].key, now) <= Keys(kept[..p])
  {
    hide LastTouch, LastAdd, Resident;
    forall x | x in Ahead(c, log, kept[p].key, now)
      ensures x in Keys(kept[..p])
    {
      var it :| it in kept && it.key == x;
      var q :| 0 <= q < |kept| && kept[q] == it;
      assert q < p;
      assert kept[..p][q] == it;
    }
  }

  lemma BeforeAreAhead(c: Config, kept: seq<Item>, log: seq<Event>, s: nat, now: nat, p: nat)
    requires TracksAt(c, kept, log, s, now) && p < |kept|
    ensures Keys(kept[..p]) <= Ahead(c, log, kept[p].key, now)
  {
    hide LastTouch, LastAdd, Resident;
    forall x | x in Keys(kept[..p])
      ensures x in Ahead(c, log, kept[p].key, now)
    {
      var it :| it in kept[..p] && it.key == x;
      assert it in kept && x in Keys(kept);
      assert log[LastTouch(log, x)] in log;
    }
  }

  /** A call that leaves `it` in front of the other entries. */
  lemma FrontStays(c: Config, rest: seq<Item>, it: Item, log: seq<Event>, s: nat, e: Event)
    requires Ordered(rest, log) && Stamped(c, rest, log, s)
    requires forall x :: x in rest ==> x.key != it.key
    requires Touches(e, it.key) && c.shardOf(it.key) == s
    requires if e.added then e.time == it.seenAt
             else LastAdd(log, it.key) >= 0 && log[LastAdd(log, it.key)].time == it.seenAt
    ensures Ordered([it] + rest, log + [e]) && Stamped(c, [it] + rest, log + [e], s)
  {
    FrontOrdered(rest, it, log, e);
    FrontStamped(c, rest, it, log, s, e);
  }

  lemma FrontOrdered(rest: seq<Item>, it: Item, log: seq<Event>, e: Event)
    requires Ordered(rest, log) && Touches(e, it.key)
    requires forall x :: x in rest ==> x.key != it.key
    ensures Ordered([it] + rest, log + [e])
  {
    hide LastTouch, LastAdd;
    TouchAppend(log, e, it.key);
    forall x | x in rest
      ensures LastTouch(log + [e], x.key) == LastTouch(log, x.key)
    {
      TouchAppend(log, e, x.key);
    }
  }

  lemma FrontStamped(c: Config, rest: seq<Item>, it: Item, log: seq<Event>, s: nat, e: Event)
    requires Stamped(c, rest, log, s) && Touches(e, it.key) && c.shardOf(it.key) == s
    requires forall x :: x in rest ==> x.key != it.key
    requires if e.added then e.time == it.seenAt
             else LastAdd(log, it.key) >= 0 && log[LastAdd(log, it.key)].time == it.seenAt
    ensures Stamped(c, [it] + rest, log + [e], s)
  {
    hide LastTouch, LastAdd;
    TouchAppend(log, e, it.key);
    forall x | x in rest
      ensures LastAdd(log + [e], x.key) == LastAdd(log, x.key)
    {
      TouchAppend(log, e, x.key);
    }
  }

  /** A call on a remembered key keeps all remembered live keys. */
  lemma TouchKnown(c: Config, kept: seq<Item>, log: seq<Event>, s: nat, it: Item, e: Event)
    requires TracksAt(c, kept, log, s, e.time) && |kept| <= c.cap && c.shardOf(it.key) == s
    requires it.key in Keys(kept) && Touches(e, it.key)
    requires if e.added then e.time == it.seenAt else it in kept
    ensures Tracks(c, [it] + Without(kept, it.key), log + [e], s)
  {
    hide LastTouch, LastAdd, Resident, Ahead;
    var rest := Without(kept, it.key);
    var all := [it] + rest;
    OrderedWithout(kept, it.key, log);
    FrontStays(c, rest, it, log, s, e);
    forall k: Key | c.shardOf(k) == s
      ensures k in Keys(all) <==> Resident(c, log + [e], k)
    {
      ResidentAppend(c, log, e, k);
      assert all[0] == it;
      if k != it.key {
        if k in Keys(kept) {
          var x :| x in kept && x.key == k;
          assert x in rest && x in all;
          var p :| 0 <= p < |kept| && kept[p] == x;
          FewAhead(c, kept, log, s, e.time, p, it.key);
        } else {
          assert k !in Keys(all);
        }
      }
    }
  }

  lemma FewAhead(c: Config, kept: seq<Item>, log: seq<Event>, s: nat, now: nat, p: nat, k: Key)
    requires TracksAt(c, kept, log, s, now) && p < |kept| && k in Keys(kept) && kept[p].key != k
    ensures |Ahead(c, log, kept[p].key, now) + {k}| < |kept|
  {
    hide LastTouch, LastAdd, Resident, Ahead;
    AheadIsBefore(c, kept, log, s, now, p);
    OrderedIsDistinct(kept, log);
    KeysCard(kept);
    var few := Ahead(c, log, kept[p].key, now) + {k};
    assert kept[p].key in Keys(kept);
    assert kept[p].key !in Keys(kept[..p]);
    assert few <= Keys(kept) - {kept[p].key};
    SubsetCard(few, Keys(kept) - {kept[p].key});
  }

  /** Truncation keeps exactly the entries standing before the cut. */
  lemma CutKeeps(all: seq<Item>, cut: nat, p: nat)
    requires Distinct(all) && p < |all|
    ensures all[p].key in Keys(all[..Min(cut, |all|)]) <==> p < cut
  {
    var front := all[..Min(cut, |all|)];
    if p < cut {
      assert front[p] == all[p];
    }
    if all[p].key in Keys(front) {
      var q :| 0 <= q < |front| && front[q].key == all[p].key;
      assert all[q] == front[q];
    }
  }

  /** Inserting an unknown key forgets the least recent one when the shard is full. */
  lemma TouchUnknown(c: Config, kept: seq<Item>, log: seq<Event>, s: nat, it: Item, e: Event)
    requires TracksAt(c, kept, log, s, e.time) && |kept| <= c.cap && c.cap > 0 && c.shardOf(it.key) == s
    requires it.key !in Keys(kept) && Touches(e, it.key) && e.added && e.time == it.seenAt
    ensures Tracks(c, Put(kept, it, c.cap), log + [e], s)
  {
    hide LastTouch, LastAdd, Resident, Ahead, Without;
    AbsentWithout(kept, it.key);
    var all := [it] + kept;
    FrontStays(c, kept, it, log, s, e);
    OrderedIsDistinct(all, log + [e]);
    forall k: Key | c.shardOf(k) == s
      ensures k in Keys(Put(kept, it, c.cap)) <==> Resident(c, log + [e], k)
    {
      PutExactly(c, kept, log, s, it, e, k);
    }
  }

  lemma PutExactly(c: Config, kept: seq<Item>, log: seq<Event>, s: nat, it: Item, e: Event, k: Key)
    requires TracksAt(c, kept, log, s, e.time) && |kept| <= c.cap && c.cap > 0 && c.shardOf(it.key) == s
    requires it.key !in Keys(kept) && Touches(e, it.key) && Distinct([it] + kept) && c.shardOf(k) == s
    ensures k in Keys(Put(kept, it, c.cap)) <==> Resident(c, log + [e], k)
  {
    hide LastTouch, LastAdd, Resident, Ahead, Without, Distinct;
    AbsentWithout(kept, it.key);
    var all := [it] + kept;
    ResidentAppend(c, log, e, k);
    if k == it.key {
      CutKeeps(all, c.cap, 0);
    } else if k in Keys(kept) {
      var p :| 0 <= p < |kept| && kept[p].key == k;
      AheadIsBefore(c, kept, log, s, e.time, p);
      assert it.key !in Keys(kept[..p]);
      CutKeeps(all, c.cap, p + 1);
    }
  }

  /** A check at `now` answers "remembered and live"; a hit keeps the relation. */
  lemma CheckStep(c: Config, items: seq<Item>, log: seq<Event>, s: nat, key: Key, now: nat)
    requires Tracks(c, items, log, s) && |items| <= c.cap && c.shardOf(key) == s
    ensures var kept := Unexpired(items, now, c.window);
            && (key in Keys(kept) <==> Resident(c, log, key) && Live(log, key, now, c.window))
            && (key in Keys(kept) ==> Tracks(c, Promote(kept, key), log + [Touch(key, now, false)], s))
  {
    hide LastTouch, LastAdd, Resident, Tracks, Unexpired;
    AfterCleanup(c, items, log, s, now);
    var kept := Unexpired(items, now, c.window);
    if key in Keys(kept) {
      TouchKnown(c, kept, log, s, Peek(kept, key).value, Touch(key, now, false));
    }
  }

  /** An insertion keeps the relation, whether or not the key was known. */
  lemma AddStep(c: Config, items: seq<Item>, log: seq<Event>, s: nat, it: Item)
    requires Tracks(c, items, log, s) && Distinct(items) && |items| <= c.cap && c.cap > 0 && c.shardOf(it.key) == s
    ensures Tracks(c, Put(Unexpired(items, it.seenAt, c.window), it, c.cap), log + [Touch(it.key, it.seenAt, true)], s)
  {
    hide LastTouch, LastAdd, Resident, Tracks, Unexpired;
    AfterCleanup(c, items, log, s, it.seenAt);
    var kept := Unexpired(items, it.seenAt, c.window);
    var e := Touch(it.key, it.seenAt, true);
    if it.key in Keys(kept) {
      OrderedIsDistinct(kept, log);
      WithoutDistinct(kept, it.key);
      TouchKnown(c, kept, log, s, it, e);
      var all := [it] + Without(kept, it.key);
      assert all[..|all|] == all;
    } else {
      TouchUnknown(c, kept, log, s, it, e);
    }
  }

  /** Both halves of an atomic check: a remembered key becomes most recent, any other is inserted. */
  lemma CheckOrAddStep(c: Config, items: seq<Item>, log: seq<Event>, s: nat, it: Item)
    requires Tracks(c, items, log, s) && Distinct(items) && |items| <= c.cap && c.cap > 0 && c.shardOf(it.key) == s
    ensures var kept := Unexpired(items, it.seenAt, c.window);
            var found := it.key in Keys(kept);
            && (found <==> Resident(c, log, it.key) && Live(log, it.key, it.seenAt, c.window))
            && Tracks(c, if found then Promote(kept, it.key) else Put(kept, it, c.cap),
                      log + [Touch(it.key, it.seenAt, !found)], s)
  {
    hide Tracks, Unexpired, Keys, Promote, Put, Resident, Live;
    CheckStep(c, items, log, s, it.key, it.seenAt);
    AddStep(c, items, log, s, it);
  }

  /** A check's answer told without replaying the cache. */
  lemma KnownExactly(c: Config, log: seq<Event>, k: Key, now: nat)
    ensures Monotone(c, log) && WithinClock(c, log, c.shardOf(k), now) ==>
              (Resident(c, log, k) && Live(log, k, now, c.window) <==> Remembered(c, log, k, now))
  {
    hide Resident, Live, NeverCrowded, Monotone, WithinClock;
    if Monotone(c, log) && WithinClock(c, log, c.shardOf(k), now) && Live(log, k, now, c.window) {
      RememberedExactly(c, log, k, now);
    }
  }
}
