/** One pass of the health monitor over a datacenter (src/transport/middle_proxy/health.rs). The pool's
    answers are inputs of the step. */
module HealthMonitors {
  import opened AdaptiveFloors
  import opened Backoffs

  /** What the pool and the clock answer during one pass. `start` is read by the floor evaluation,
      `now` later; `connects` are the results of the connection attempts, in order. */
  datatype Answers = Answers(
    endpoints: nat, adaptive: bool, hasBound: bool, start: nat, now: nat, grace: nat, idle: nat,
    requiredFull: nat, requiredReduced: nat, alive: nat, outageMode: bool, outageConnect: bool,
    refillInFlight: bool, maxConcurrent: nat, connects: nat -> bool, jitter: nat)

  datatype Action = Nothing | OutageAttempt(ok: bool) | Reconnect(tried: nat, restored: nat)

  /** The only endpoint of the datacenter has no live writer, and outage mode is on. */
  predicate Down(a: Answers) {
    a.endpoints == 1 && a.outageMode && a.alive == 0
  }

  function Required(a: Answers, reduce: bool): nat {
    if reduce then a.requiredReduced else a.requiredFull
  }

  /** What this evaluation of the floor saw. */
  function Observed(k: Key, a: Answers): Event {
    Seen(k, a.endpoints == 1 && a.adaptive, a.hasBound, a.start, a.grace)
  }

  function CountTrue(f: nat -> bool, n: nat): (c: nat)
    ensures c <= n
  {
    if n == 0 then 0 else CountTrue(f, n - 1) + (if f(n - 1) then 1 else 0)
  }

  /** Backoff bounds of the reconnect path and of outage mode. */
  datatype Limits = Limits(base: nat, cap: nat, outageMin: nat, outageMax: nat)

  /** The attempts an action stands for, and the drop of outage state on leaving an outage. */
  function NewTries(did: Action, k: Key, a: Answers): seq<Try> {
    if did.Reconnect? then [Try(k, a.now, did.restored == did.tried, a.jitter)] else []
  }

  function NewOutageTries(did: Action, k: Key, a: Answers, wasOut: bool): seq<Try> {
    if did.OutageAttempt? then [Try(k, a.now, did.ok, a.jitter)]
    else if !Down(a) && wasOut then [Drop(k)]
    else []
  }

  /** What a turn adds to the floor history: the evaluation, and a reset on leaving an outage. */
  function NewEvents(k: Key, a: Answers, wasOut: bool): seq<Event> {
    [Observed(k, a)] + if !Down(a) && wasOut then [Reset(k)] else []
  }

  /** What a turn owes, given the attempts so far: in an outage an attempt when one is due, otherwise
      one attempt for each missing writer when that is due and no refill is under way. */
  function Owed(lim: Limits, tries: seq<Try>, outageTries: seq<Try>, k: Key, a: Answers, reduce: bool): Action {
    if Down(a) then
      if DueBy(lim.outageMin, lim.outageMax, outageTries, k, a.now) then OutageAttempt(a.outageConnect) else Nothing
    else
      var required := Required(a, reduce);
      if a.alive < required && DueBy(lim.base, lim.cap, tries, k, a.now) && !a.refillInFlight
      then Reconnect(required - a.alive, CountTrue(a.connects, required - a.alive))
      else Nothing
  }

  /** How many writers a due turn tries to bring back: those missing from the full floor, or, after a quiet
      spell, only those missing from the reduced one. */
  predicate Restores(due: bool, quiet: bool, a: Answers, did: Action) {
    !Down(a) ==>
      && (!quiet && due && !a.refillInFlight && a.alive < a.requiredFull ==>
            did.Reconnect? && did.tried == a.requiredFull - a.alive)
      && (!quiet && a.alive >= a.requiredFull ==> did.Nothing?)
      && (quiet && due && !a.refillInFlight && a.alive < a.requiredReduced ==>
            did.Reconnect? && did.tried == a.requiredReduced - a.alive)
      && (quiet && a.alive >= a.requiredReduced ==> did.Nothing?)
      && (!due || a.refillInFlight ==> did.Nothing?)
  }

  class HealthMonitor {
    const floor: AdaptiveFloor
    const timer: Backoff
    const outageTimer: Backoff
    const lim: Limits
    var inflight: map<Key, nat>
    var outage: set<Key>
    var enters: nat
    var exits: nat

    /** Floors and timers follow their histories, no attempt is left in flight, and outages entered
        minus outages left are the outages going on. */
    ghost predicate Valid()
      reads this, floor, timer, outageTimer
    {
      && timer != outageTimer
      && floor.Valid() && timer.Valid() && outageTimer.Valid()
      && timer.base == lim.base && timer.cap == lim.cap
      && outageTimer.base == lim.outageMin && outageTimer.cap == lim.outageMax
      && (forall k :: k in inflight ==> inflight[k] == 0)
      && enters == exits + |outage|
    }

    constructor (lim: Limits)
      requires lim.cap <= U64_MAX && lim.outageMax <= U64_MAX
      ensures Valid() && fresh(floor) && fresh(timer) && fresh(outageTimer) && this.lim == lim
      ensures outage == {} && enters == 0 && timer.log == [] && outageTimer.log == []
      ensures floor.log == [] && floor.clock == 0
    {
      this.lim := lim;
      floor := new AdaptiveFloor();
      timer := new Backoff(lim.base, lim.cap);
      outageTimer := new Backoff(lim.outageMin, lim.outageMax);
      inflight, outage, enters, exits := map[], {}, 0, 0;
    }

    /** A static floor mode drops all adaptive state at the start of a pass. */
    method StartPass(staticFloor: bool)
      requires Valid()
      modifies floor
      ensures Valid() && floor.clock == old(floor.clock)
      ensures floor.log == old(floor.log) + (if staticFloor then [ResetAll] else [])
    {
      if staticFloor {
        floor.ForgetAll();
      }
    }

    /** One datacenter's turn. The floor is reduced exactly after a long enough idle spell, and the turn
        does exactly what it owes; the histories and the outage state go on accordingly. */
    method CheckDc(k: Key, a: Answers) returns (did: Action, reduce: bool)
      requires Valid() && floor.clock <= a.start && a.endpoints > 0
      modifies this, floor, timer, outageTimer
      ensures Valid() && floor.clock <= a.start
      ensures reduce <==> IdleLongEnough(old(floor.log) + [Observed(k, a)], k, a.start, a.idle)
      ensures did == Owed(lim, old(timer.log), old(outageTimer.log), k, a, reduce)
      ensures Restores(DueBy(lim.base, lim.cap, old(timer.log), k, a.now), reduce, a, did)
      ensures floor.log == old(floor.log) + NewEvents(k, a, k in old(outage))
      ensures Moved(k, a, did, old(outage), old(enters), old(exits), old(timer.log), old(outageTimer.log))
    {
      hide AdaptiveFloor.Valid, Backoff.Valid, IdleLongEnough, LastBound, Moved, Seen, DueBy, CountTrue;
      reduce := floor.ShouldReduce(k, a.endpoints == 1 && a.adaptive, a.hasBound, a.start, a.grace, a.idle);
      ghost var seen := floor.log;
      timer.DueExactly(k, a.now);
      outageTimer.DueExactly(k, a.now);
      var required := if reduce then a.requiredReduced else a.requiredFull;
      did := Decide(k, a, required);
      assert seen + [] == seen;
    }

    /** Outage state, transition counts and attempt histories after a turn. */
    ghost predicate Moved(k: Key, a: Answers, did: Action, wasOut: set<Key>, wasIn: nat, wasLeft: nat,
                          tries: seq<Try>, outageTries: seq<Try>)
      reads this, timer, outageTimer
    {
      && outage == (if Down(a) then wasOut + {k} else wasOut - {k})
      && enters == wasIn + (if Down(a) && k !in wasOut then 1 else 0)
      && exits == wasLeft + (if !Down(a) && k in wasOut then 1 else 0)
      && timer.log == tries + NewTries(did, k, a)
      && outageTimer.log == outageTries + NewOutageTries(did, k, a, k in wasOut)
    }

    method Decide(k: Key, a: Answers, required: nat) returns (did: Action)
      requires Valid() && floor.clock <= a.start && a.endpoints > 0
      modifies this, floor, timer, outageTimer
      ensures Valid() && floor.clock <= a.start
      ensures did == if Down(a) then if old(outageTimer.Due(k, a.now)) then OutageAttempt(a.outageConnect) else Nothing
                     else if a.alive < required && old(timer.Due(k, a.now)) && !a.refillInFlight
                     then Reconnect(required - a.alive, CountTrue(a.connects, required - a.alive))
                     else Nothing
      ensures floor.log == old(floor.log) + if !Down(a) && k in old(outage) then [Reset(k)] else []
      ensures Moved(k, a, did, old(outage), old(enters), old(exits), old(timer.log), old(outageTimer.log))
    {
      hide AdaptiveFloor.Valid, Backoff.Valid, CountTrue;
      if a.endpoints == 1 && a.outageMode && a.alive == 0 {
        did := FindDown(k, a);
        return;
      }
      if k in outage {
        LeaveOutage(k);
      }
      did := Nothing;
      if a.alive < required {
        did := RestoreFloor(k, a, required - a.alive);
      }
    }

    method FindDown(k: Key, a: Answers) returns (did: Action)
      requires Valid() && Down(a)
      modifies this`outage, this`enters, outageTimer
      ensures Valid()
      ensures did == if old(outageTimer.Due(k, a.now)) then OutageAttempt(a.outageConnect) else Nothing
      ensures Moved(k, a, did, old(outage), old(enters), exits, timer.log, old(outageTimer.log))
    {
      hide AdaptiveFloor.Valid, Backoff.Valid;
      if k !in outage {
        outage, enters := outage + {k}, enters + 1;
      }
      did := RecoverOutage(k, a);
    }

    method LeaveOutage(k: Key)
      requires Valid() && k in outage
      modifies this`outage, this`exits, outageTimer, floor
      ensures Valid() && floor.clock == old(floor.clock)
      ensures outage == old(outage) - {k} && exits == old(exits) + 1
      ensures outageTimer.log == old(outageTimer.log) + [Drop(k)]
      ensures floor.log == old(floor.log) + [Reset(k)]
    {
      hide AdaptiveFloor.Valid, Backoff.Valid;
      outage, exits := outage - {k}, exits + 1;
      outageTimer.Forget(k);
      floor.Forget(k);
    }

    method RecoverOutage(k: Key, a: Answers) returns (did: Action)
      requires outageTimer.Valid()
      modifies outageTimer
      ensures outageTimer.Valid()
      ensures did == if old(outageTimer.Due(k, a.now)) then OutageAttempt(a.outageConnect) else Nothing
      ensures did.OutageAttempt? ==> outageTimer.log == old(outageTimer.log) + [Try(k, a.now, did.ok, a.jitter)]
      ensures did.Nothing? ==> outageTimer.log == old(outageTimer.log)
    {
      if k in outageTimer.next && a.now < outageTimer.next[k] {
        return Nothing;
      }
      outageTimer.Schedule(k, a.now, a.outageConnect, a.jitter);
      did := OutageAttempt(a.outageConnect);
    }

    /** Try to bring back `missing` writers. The in-flight guard never holds this up, because every
        pass gives back what it took. */
    method RestoreFloor(k: Key, a: Answers, missing: nat) returns (did: Action)
      requires timer.Valid() && missing > 0 && forall x :: x in inflight ==> inflight[x] == 0
      modifies this`inflight, timer
      ensures timer.Valid() && forall x :: x in inflight ==> inflight[x] == 0
      ensures did == if old(timer.Due(k, a.now)) && !a.refillInFlight
                     then Reconnect(missing, CountTrue(a.connects, missing)) else Nothing
      ensures did.Reconnect? ==> timer.log == old(timer.log) + [Try(k, a.now, did.restored == did.tried, a.jitter)]
      ensures did.Nothing? ==> timer.log == old(timer.log)
    {
      hide Backoff.Valid;
      if k in timer.next && a.now < timer.next[k] {
        return Nothing;
      }
      var maxConcurrent := if a.maxConcurrent < 1 then 1 else a.maxConcurrent;
      var flying := if k in inflight then inflight[k] else 0;
      if flying >= maxConcurrent {
        return Nothing;
      }
      if a.refillInFlight {
        return Nothing;
      }
      inflight := inflight[k := flying + 1];
      var restored := 0;
      for i := 0 to missing
        invariant restored == CountTrue(a.connects, i)
      {
        if a.connects(i) {
          restored := restored + 1;
        }
      }
      timer.Schedule(k, a.now, restored >= missing, a.jitter);
      inflight := inflight[k := if inflight[k] > 0 then inflight[k] - 1 else 0];
      did := Reconnect(missing, restored);
    }
  }

  // ---- Runs ----

  /** A step of a run: the start of a pass, or a datacenter's turn. */
  datatype Step = Pass(staticFloor: bool) | Turn(key: Key, answers: Answers)

  /** A datacenter without endpoints is passed over. */
  predicate Active(s: Step) {
    s.Turn? && s.answers.endpoints > 0
  }

  /** Floor evaluations read a clock that does not go back. */
  predicate Orderly(steps: seq<Step>) {
    forall i, j :: 0 <= i < j < |steps| && Active(steps[i]) && Active(steps[j]) ==>
                     steps[i].answers.start <= steps[j].answers.start
  }

  /** The last turn of `k`, or -1. */
  function LastTurn(steps: seq<Step>, k: Key): (i: int)
    ensures -1 <= i < |steps|
    ensures i >= 0 ==> Active(steps[i]) && steps[i].key == k
    ensures forall j :: i < j < |steps| ==> !(Active(steps[j]) && steps[j].key == k)
  {
    if steps == [] then -1
    else
      var n := |steps| - 1;
      if Active(steps[n]) && steps[n].key == k then n else LastTurn(steps[..n], k)
  }

  /** The last turn of `k` found its only endpoint down. */
  predicate IsOut(steps: seq<Step>, k: Key) {
    var i := LastTurn(steps, k);
    i >= 0 && Down(steps[i].answers)
  }

  /** How many turns found a key newly down, and how many found it up again. */
  function Enters(steps: seq<Step>): nat {
    if steps == [] then 0
    else
      var n := |steps| - 1;
      var s, before := steps[n], steps[..n];
      Enters(before) + if Active(s) && Down(s.answers) && !IsOut(before, s.key) then 1 else 0
  }

  function Exits(steps: seq<Step>): nat {
    if steps == [] then 0
    else
      var n := |steps| - 1;
      var s, before := steps[n], steps[..n];
      Exits(before) + if Active(s) && !Down(s.answers) && IsOut(before, s.key) then 1 else 0
  }

  /** The floor history of a run. */
  function FloorLog(steps: seq<Step>): seq<Event> {
    if steps == [] then []
    else
      var n := |steps| - 1;
      var s, before := steps[n], steps[..n];
      FloorLog(before)
      + if Active(s) then NewEvents(s.key, s.answers, IsOut(before, s.key))
        else if s.Pass? && s.staticFloor then [ResetAll]
        else []
  }

  /** The attempts of a run, told from what each step did. */
  function TriesOf(steps: seq<Step>, did: seq<Action>): seq<Try>
    requires |steps| == |did|
  {
    if steps == [] then []
    else
      var n := |steps| - 1;
      TriesOf(steps[..n], did[..n]) + if Active(steps[n]) then NewTries(did[n], steps[n].key, steps[n].answers) else []
  }

  function OutageTriesOf(steps: seq<Step>, did: seq<Action>): seq<Try>
    requires |steps| == |did|
  {
    if steps == [] then []
    else
      var n := |steps| - 1;
      var s, before := steps[n], steps[..n];
      OutageTriesOf(before, did[..n])
      + if Active(s) then NewOutageTries(did[n], s.key, s.answers, IsOut(before, s.key)) else []
  }

  /** Step `s` after the history `before` did what it owed, and reduced the floor exactly after a
      quiet spell. */
  ghost predicate StepOk(lim: Limits, before: seq<Step>, done: seq<Action>, s: Step, did: Action, reduce: bool)
    requires |before| == |done|
  {
    if Active(s) then
      var k, a := s.key, s.answers;
      && (reduce <==> IdleLongEnough(FloorLog(before) + [Observed(k, a)], k, a.start, a.idle))
      && did == Owed(lim, TriesOf(before, done), OutageTriesOf(before, done), k, a, reduce)
      && Restores(DueBy(lim.base, lim.cap, TriesOf(before, done), k, a.now), reduce, a, did)
    else
      !reduce && did == Nothing
  }

  /** What one more step adds to each history. */
  lemma Snoc(steps: seq<Step>, did: seq<Action>, s: Step, act: Action, k: Key)
    requires |steps| == |did|
    ensures IsOut(steps + [s], k) == if Active(s) && s.key == k then Down(s.answers) else IsOut(steps, k)
    ensures Enters(steps + [s]) == Enters(steps) + if Active(s) && Down(s.answers) && !IsOut(steps, s.key) then 1 else 0
    ensures Exits(steps + [s]) == Exits(steps) + if Active(s) && !Down(s.answers) && IsOut(steps, s.key) then 1 else 0
    ensures FloorLog(steps + [s]) == FloorLog(steps)
                                     + if Active(s) then NewEvents(s.key, s.answers, IsOut(steps, s.key))
                                       else if s.Pass? && s.staticFloor then [ResetAll]
                                       else []
    ensures TriesOf(steps + [s], did + [act])
         == TriesOf(steps, did) + if Active(s) then NewTries(act, s.key, s.answers) else []
    ensures OutageTriesOf(steps + [s], did + [act])
         == OutageTriesOf(steps, did)
            + if Active(s) then NewOutageTries(act, s.key, s.answers, IsOut(steps, s.key)) else []
  {
    hide NewTries, NewOutageTries, NewEvents, Down;
    assert (steps + [s])[..|steps|] == steps && (did + [act])[..|steps|] == did;
  }

  /** The monitor's state is the one its steps determine. */
  ghost predicate Follows(m: HealthMonitor, steps: seq<Step>, did: seq<Action>)
    requires |steps| == |did|
    reads m, m.floor, m.timer, m.outageTimer
  {
    && m.Valid()
    && (forall k: Key :: k in m.outage <==> IsOut(steps, k))
    && m.enters == Enters(steps) && m.exits == Exits(steps)
    && m.floor.log == FloorLog(steps)
    && m.timer.log == TriesOf(steps, did) && m.outageTimer.log == OutageTriesOf(steps, did)
  }

  /** One step of a run. */
  method Act(m: HealthMonitor, s: Step, ghost steps: seq<Step>, ghost done: seq<Action>)
    returns (did: Action, reduce: bool)
    requires |steps| == |done| && Follows(m, steps, done)
    requires Active(s) ==> m.floor.clock <= s.answers.start
    modifies m, m.floor, m.timer, m.outageTimer
    ensures Follows(m, steps + [s], done + [did])
    ensures StepOk(m.lim, steps, done, s, did, reduce)
    ensures if Active(s) then m.floor.clock <= s.answers.start else m.floor.clock == old(m.floor.clock)
  {
    hide HealthMonitor.Valid, IdleLongEnough, Owed, Restores, DueBy, Down, Observed;
    hide NewTries, NewOutageTries, NewEvents;
    hide FloorLog, TriesOf, OutageTriesOf, Enters, Exits, IsOut;
    did, reduce := Nothing, false;
    if s.Pass? {
      m.StartPass(s.staticFloor);
    } else if s.answers.endpoints > 0 {
      did, reduce := m.CheckDc(s.key, s.answers);
    }
    forall k: Key
      ensures k in m.outage <==> IsOut(steps + [s], k)
    {
      Snoc(steps, done, s, did, k);
    }
    Snoc(steps, done, s, did, Key(0, false));
  }

  /** Every run of the monitor, whatever the pool answers. Each turn does what its history owes and
      reduces the floor exactly after a quiet spell; the keys down are those whose last turn found them down,
      entered and left as often as their turns say; and attempts of a datacenter are spaced by the doubling
      delay, in outage mode too. */
  method Run(lim: Limits, steps: seq<Step>)
    returns (did: seq<Action>, reduce: seq<bool>, enters: nat, exits: nat, down: set<Key>)
    requires lim.cap <= U64_MAX && lim.outageMax <= U64_MAX && Orderly(steps)
    ensures |did| == |steps| == |reduce|
    ensures forall i :: 0 <= i < |steps| ==> StepOk(lim, steps[..i], did[..i], steps[i], did[i], reduce[i])
    ensures forall k :: k in down <==> IsOut(steps, k)
    ensures enters == Enters(steps) && exits == Exits(steps) && enters == exits + |down|
    ensures Spaced(lim.base, lim.cap, TriesOf(steps, did))
    ensures Spaced(lim.outageMin, lim.outageMax, OutageTriesOf(steps, did))
  {
    hide Follows, StepOk, Spaced;
    var m := new HealthMonitor(lim);
    did, reduce := [], [];
    ghost var done: seq<Step> := [];
    StartsEmpty(m);
    for i := 0 to |steps|
      invariant fresh(m) && fresh(m.floor) && fresh(m.timer) && fresh(m.outageTimer) && m.lim == lim
      invariant done == steps[..i] && |did| == |reduce| == i && Follows(m, done, did)
      invariant forall j :: 0 <= j < i ==> StepOk(lim, steps[..j], did[..j], steps[j], did[j], reduce[j])
      invariant forall j :: i <= j < |steps| && Active(steps[j]) ==> m.floor.clock <= steps[j].answers.start
    {
      ghost var before := did;
      var act, red := Act(m, steps[i], done, did);
      did, reduce, done := did + [act], reduce + [red], done + [steps[i]];
      forall j | 0 <= j < i + 1
        ensures StepOk(lim, steps[..j], did[..j], steps[j], did[j], reduce[j])
      {
        assert did[..j] == before[..j];
      }
    }
    assert done == steps;
    Ends(m, steps, did);
    enters, exits, down := m.enters, m.exits, m.outage;
  }

  lemma StartsEmpty(m: HealthMonitor)
    requires m.Valid() && m.outage == {} && m.enters == 0
    requires m.timer.log == [] && m.outageTimer.log == [] && m.floor.log == []
    ensures Follows(m, [], [])
  {
  }

  lemma Ends(m: HealthMonitor, steps: seq<Step>, did: seq<Action>)
    requires |steps| == |did| && Follows(m, steps, did)
    ensures (forall k: Key :: k in m.outage <==> IsOut(steps, k))
    ensures m.enters == Enters(steps) && m.exits == Exits(steps) && m.enters == m.exits + |m.outage|
    ensures Spaced(m.lim.base, m.lim.cap, TriesOf(steps, did))
    ensures Spaced(m.lim.outageMin, m.lim.outageMax, OutageTriesOf(steps, did))
  {
  }
}
