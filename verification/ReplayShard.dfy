/** `ReplayShard`: an LRU cache with an expiry queue whose stale nodes are told apart by
    sequence numbers (src/stats/mod.rs). */
module ReplayShards {
  import opened Bytes
  import opened Io
  import opened ReplaySpec

  /** A cache entry; the cache lists entries from most to least recently used. */
  datatype Item = Item(key: Key, seenAt: nat, stamp: nat)

  /** An expiry-queue node. */
  datatype Node = Node(time: nat, key: Key, stamp: nat)

  predicate Distinct(items: seq<Item>) {
    forall i, j :: 0 <= i < j < |items| ==> items[i].key != items[j].key
  }

  function Keys(items: seq<Item>): set<Key> {
    set it | it in items :: it.key
  }

  // ---- The cache operations the shard uses ----

  function Peek(items: seq<Item>, key: Key): (r: Option<Item>)
    ensures r.Some? ==> r.value in items && r.value.key == key
    ensures r.None? ==> key !in Keys(items)
  {
    if items == [] then None
    else if items[0].key == key then Some(items[0])
    else Peek(items[1..], key)
  }

  function Without(items: seq<Item>, key: Key): (r: seq<Item>)
    ensures forall it :: it in r <==> it in items && it.key != key
    ensures |r| <= |items|
  {
    if items == [] then []
    else (if items[0].key == key then [] else [items[0]]) + Without(items[1..], key)
  }

  /** `get`: a hit becomes most recent. */
  function Promote(items: seq<Item>, key: Key): seq<Item> {
    var p := Peek(items, key);
    if p.None? then items else [p.value] + Without(items, key)
  }

  /** `put`: the entry becomes most recent; beyond `cap` the least recent one is dropped. */
  function Put(items: seq<Item>, it: Item, cap: nat): seq<Item> {
    var all := [it] + Without(items, it.key);
    all[..Min(cap, |all|)]
  }

  /** The entries not expired at `now`, in order: what a cleanup must leave. */
  function Unexpired(items: seq<Item>, now: nat, window: nat): (r: seq<Item>)
    ensures forall it :: it in r <==> it in items && !Expired(it.seenAt, now, window)
    ensures |r| <= |items|
  {
    if items == [] then []
    else (if Expired(items[0].seenAt, now, window) then [] else [items[0]]) + Unexpired(items[1..], now, window)
  }

  lemma {:induction false} WithoutDistinct(items: seq<Item>, key: Key)
    requires Distinct(items)
    ensures Distinct(Without(items, key))
    ensures key in Keys(items) ==> |Without(items, key)| < |items|
  {
    if items != [] {
      WithoutDistinct(items[1..], key);
      if items[0].key != key && key in Keys(items) {
        var it :| it in items && it.key == key;
        assert it in items[1..];
      }
    }
  }

  lemma PutDistinct(items: seq<Item>, it: Item, cap: nat)
    requires Distinct(items) && cap > 0
    ensures Distinct(Put(items, it, cap)) && |Put(items, it, cap)| <= cap
    ensures forall x :: x in Put(items, it, cap) ==> x == it || x in items
  {
    WithoutDistinct(items, it.key);
    var rest := Without(items, it.key);
    assert Distinct([it] + rest);
  }

  lemma {:induction false} UnexpiredDistinct(items: seq<Item>, now: nat, window: nat)
    requires Distinct(items)
    ensures Distinct(Unexpired(items, now, window))
  {
    if items != [] {
      UnexpiredDistinct(items[1..], now, window);
    }
  }

  /** Removing an expired entry changes nothing a cleanup would keep. */
  lemma {:induction false} RemoveExpired(items: seq<Item>, it: Item, now: nat, window: nat)
    requires Distinct(items) && it in items && Expired(it.seenAt, now, window)
    ensures Unexpired(Without(items, it.key), now, window) == Unexpired(items, now, window)
  {
    var rest := items[1..];
    if items[0] == it {
      AbsentWithout(rest, it.key);
      assert Without(items, it.key) == rest;
      assert Unexpired(items, now, window) == Unexpired(rest, now, window);
    } else {
      RemoveExpired(rest, it, now, window);
      assert Without(items, it.key) == [items[0]] + Without(rest, it.key);
      assert Without(items, it.key)[1..] == Without(rest, it.key);
    }
  }

  lemma {:induction false} AbsentWithout(items: seq<Item>, key: Key)
    requires forall it :: it in items ==> it.key != key
    ensures Without(items, key) == items
  {
    if items != [] {
      AbsentWithout(items[1..], key);
    }
  }

  lemma {:induction false} AllUnexpired(items: seq<Item>, now: nat, window: nat)
    requires forall it :: it in items ==> !Expired(it.seenAt, now, window)
    ensures Unexpired(items, now, window) == items
  {
    if items != [] {
      AllUnexpired(items[1..], now, window);
    }
  }

  lemma UnexpiredTwice(items: seq<Item>, now: nat, window: nat)
    ensures Unexpired(Unexpired(items, now, window), now, window) == Unexpired(items, now, window)
  {
    AllUnexpired(Unexpired(items, now, window), now, window);
  }

  predicate Sorted(queue: seq<Node>) {
    forall i, j :: 0 <= i < j < |queue| ==> queue[i].time <= queue[j].time && queue[i].stamp < queue[j].stamp
  }

  lemma SortedTail(queue: seq<Node>)
    requires queue != [] && Sorted(queue)
    ensures Sorted(queue[1..])
  {
  }

  /** How many of the nodes are unexpired at `now`. */
  function Within(nodes: seq<Node>, now: nat, window: nat): (n: nat) {
    if nodes == [] then 0
    else Within(nodes[1..], now, window) + if Expired(nodes[0].time, now, window) then 0 else 1
  }

  /** A tail of unexpired nodes is no longer than all unexpired nodes together. */
  lemma {:induction false} TailWithin(gone: seq<Node>, queue: seq<Node>, now: nat, window: nat)
    requires forall n :: n in queue ==> !Expired(n.time, now, window)
    ensures |queue| <= Within(gone + queue, now, window)
    decreases |gone| + |queue|
  {
    hide Expired;
    var all := gone + queue;
    if gone != [] {
      assert all[1..] == gone[1..] + queue;
      TailWithin(gone[1..], queue, now, window);
    } else if queue != [] {
      assert all == queue && queue[0] in queue;
      assert [] + queue[1..] == queue[1..];
      TailWithin([], queue[1..], now, window);
    }
  }

  class ReplayShard {
    var cache: seq<Item>
    var queue: seq<Node>
    var seqCounter: nat
    const cap: nat
    /** The last clock reading an entry was added at. */
    ghost var clock: nat
    /** Nodes that left the queue. */
    ghost var gone: seq<Node>

    /** Every node ever queued, oldest first. */
    ghost function Inserted(): seq<Node>
      reads this
    {
      gone + queue
    }

    /** The queue is ordered by time and sequence number, and every entry has its own node; the
        counter is the number of insertions. */
    ghost predicate Valid()
      reads this
    {
      && cap > 0
      && Distinct(cache) && |cache| <= cap
      && Sorted(queue) && seqCounter == |Inserted()|
      && (forall n :: n in queue ==> n.stamp <= seqCounter && n.time <= clock)
      && (forall it :: it in cache ==> Node(it.seenAt, it.key, it.stamp) in queue)
    }

    constructor (cap: nat)
      requires cap > 0
      ensures Valid() && cache == [] && this.cap == cap && clock == 0 && Inserted() == []
    {
      cache, queue, seqCounter, this.cap, clock, gone := [], [], 0, cap, 0, [];
    }

    lemma Bounded()
      requires Valid()
      ensures Distinct(cache) && |cache| <= cap && cap > 0
    {
    }

    /** A node of an entry that was since replaced removes nothing: exactly the expired entries go.
        The queue is left no longer than the insertions within the window; with a zero window
        no node ever leaves it. */
    method Cleanup(now: nat, window: nat)
      requires Valid()
      modifies this`cache, this`queue, this`gone
      ensures Valid() && Inserted() == old(Inserted())
      ensures cache == Unexpired(old(cache), now, window)
      ensures forall n :: n in queue ==> !Expired(n.time, now, window)
      ensures |queue| <= Within(Inserted(), now, window)
      ensures window == 0 ==> gone == old(gone)
    {
      if window == 0 {
        AllUnexpired(cache, now, window);
        TailWithin(gone, queue, now, window);
        return;
      }
      var cutoff := Cutoff(now, window);
      while queue != [] && queue[0].time < cutoff
        invariant Valid() && Inserted() == old(Inserted())
        invariant Unexpired(cache, now, window) == Unexpired(old(cache), now, window)
        decreases |queue|
      {
        PopFront(now, window);
      }
      forall n | n in queue
        ensures !Expired(n.time, now, window)
      {
        var i :| 0 <= i < |queue| && queue[i] == n;
      }
      AllUnexpired(cache, now, window);
      TailWithin(gone, queue, now, window);
    }

    /** Drop the oldest node, and the entry it belongs to if that is still the current one. */
    method PopFront(now: nat, window: nat)
      requires Valid() && queue != [] && Expired(queue[0].time, now, window)
      modifies this`cache, this`queue, this`gone
      ensures Valid() && queue == old(queue)[1..] && Inserted() == old(Inserted())
      ensures Unexpired(cache, now, window) == Unexpired(old(cache), now, window)
    {
      hide Sorted, Distinct, Unexpired, Peek, Without;
      var node := queue[0];
      SortedTail(queue);
      queue, gone := queue[1..], gone + [node];
      assert Inserted() == old(Inserted());
      var entry := Peek(cache, node.key);
      if entry.Some? && entry.value.stamp == node.stamp {
        OwnNode(old(queue), Node(entry.value.seenAt, entry.value.key, entry.value.stamp), node);
        RemoveExpired(cache, entry.value, now, window);
        WithoutDistinct(cache, node.key);
        cache := Without(cache, node.key);
      }
      AllStillQueued(old(cache), old(queue), cache);
    }

    /** Whether `key` is remembered; a hit becomes most recent. */
    method Check(key: Key, now: nat, window: nat) returns (found: bool)
      requires Valid()
      modifies this`cache, this`queue, this`gone
      ensures Valid() && Inserted() == old(Inserted())
      ensures |queue| <= Within(Inserted(), now, window)
      ensures window == 0 ==> gone == old(gone)
      ensures var kept := Unexpired(old(cache), now, window);
              found == (key in Keys(kept)) && cache == Promote(kept, key)
    {
      hide Unexpired, Within, Sorted, Distinct;
      Cleanup(now, window);
      var hit := Peek(cache, key);
      found := hit.Some?;
      if found {
        PromoteKeepsValid(key);
        cache := Promote(cache, key);
      }
    }

    lemma PromoteKeepsValid(key: Key)
      requires Valid() && key in Keys(cache)
      ensures var p := Promote(cache, key);
              && Distinct(p) && |p| <= |cache| && Keys(p) == Keys(cache)
              && forall it :: it in p ==> it in cache
    {
      WithoutDistinct(cache, key);
      var hit := Peek(cache, key).value;
      var rest := Without(cache, key);
      forall x | x in Keys(cache)
        ensures x in Keys([hit] + rest)
      {
        var it :| it in cache && it.key == x;
        assert x != key ==> it in rest;
        assert hit in [hit] + rest;
        assert x != key ==> it in [hit] + rest;
      }
    }

    /** `key` becomes most recent with a fresh node; clock readings do not go back. */
    method Add(key: Key, now: nat, window: nat)
      requires Valid()
      requires clock <= now
      modifies this
      ensures Valid() && clock == now
      ensures cache == Put(Unexpired(old(cache), now, window), Item(key, now, old(seqCounter) + 1), cap)
      ensures Inserted() == old(Inserted()) + [Node(now, key, old(seqCounter) + 1)]
      ensures |queue| <= Within(Inserted(), now, window)
      ensures window == 0 ==> gone == old(gone)
    {
      hide Unexpired, Put, Within;
      Cleanup(now, window);
      seqCounter, clock := seqCounter + 1, now;
      var it := Item(key, now, seqCounter);
      PutDistinct(cache, it, cap);
      cache := Put(cache, it, cap);
      queue := queue + [Node(now, key, seqCounter)];
      assert Inserted() == old(Inserted()) + [Node(now, key, seqCounter)];
      TailWithin(gone, queue, now, window);
    }
  }

  /** The body of `check_and_add_internal` under the shard's lock. */
  method CheckOrAdd(shard: ReplayShard, key: Key, now: nat, window: nat) returns (found: bool)
    requires shard.Valid() && shard.clock <= now
    modifies shard
    ensures shard.Valid() && shard.clock <= now
    ensures var kept := Unexpired(old(shard.cache), now, window);
            && found == (key in Keys(kept))
            && shard.cache == if found then Promote(kept, key)
                              else Put(kept, Item(key, now, old(shard.seqCounter) + 1), shard.cap)
    ensures shard.seqCounter == old(shard.seqCounter) + (if found then 0 else 1)
    ensures |shard.queue| <= Within(shard.Inserted(), now, window)
    ensures window == 0 ==> shard.gone == old(shard.gone)
  {
    hide Unexpired, Put, Within;
    UnexpiredTwice(shard.cache, now, window);
    found := shard.Check(key, now, window);
    if !found {
      shard.Add(key, now, window);
    }
  }

  /** Nodes with equal sequence numbers are the same node. */
  lemma OwnNode(queue: seq<Node>, a: Node, b: Node)
    requires Sorted(queue) && a in queue && b in queue && a.stamp == b.stamp
    ensures a == b
  {
    var i :| 0 <= i < |queue| && queue[i] == a;
    var j :| 0 <= j < |queue| && queue[j] == b;
  }

  /** Entries left behind when the front node goes keep their own nodes. */
  lemma AllStillQueued(was: seq<Item>, queue: seq<Node>, cache: seq<Item>)
    requires Distinct(was) && queue != []
    requires forall it :: it in was ==> Node(it.seenAt, it.key, it.stamp) in queue
    requires forall it :: it in cache ==> it in was
    requires forall it :: it in cache && Peek(was, queue[0].key) == Some(it) ==> it.stamp != queue[0].stamp
    ensures forall it :: it in cache ==> Node(it.seenAt, it.key, it.stamp) in queue[1..]
  {
    hide Distinct, Peek;
    forall it | it in cache
      ensures Node(it.seenAt, it.key, it.stamp) in queue[1..]
    {
      StillQueued(was, queue, it, queue[0]);
    }
  }

  /** An entry other than the one the popped node belongs to keeps its node. */
  lemma StillQueued(cache: seq<Item>, queue: seq<Node>, it: Item, node: Node)
    requires Distinct(cache) && it in cache && queue != [] && node == queue[0]
    requires Node(it.seenAt, it.key, it.stamp) in queue
    requires Peek(cache, node.key) == Some(it) ==> it.stamp != node.stamp
    ensures Node(it.seenAt, it.key, it.stamp) in queue[1..]
  {
    if Node(it.seenAt, it.key, it.stamp) == node {
      PeekFinds(cache, it);
    }
  }

  lemma {:induction false} PeekFinds(items: seq<Item>, it: Item)
    requires Distinct(items) && it in items
    ensures Peek(items, it.key) == Some(it)
  {
    if items[0] != it {
      PeekFinds(items[1..], it);
    }
  }
}
