/** Both stacks joined by a network: `CryptoWriter` over FakeTLS or a socket at one end,
    `CryptoReader` over the same at the other. */
module Pipe {
  import opened Bytes
  import opened Io
  import opened Ctr
  import opened TlsRecord
  import opened CryptoWriters
  import opened AsyncSources
  import opened CryptoReaders

  /** The two ends agree on the keystream and the framing, and the network delivered
      nothing but a prefix of what was written. */
  ghost predicate Joined(w: CryptoWriter, r: CryptoReader)
    reads w, w.Repr(), r, r.Repr()
  {
    && w.Valid() && r.Valid()
    && w.encryptor.ks == r.decryptor.ks && w.start == r.start
    && (w.upstream.tls == null <==> r.upstream.tls == null)
    && r.upstream.wire.arrived <= w.upstream.wire.log
  }

  /** Delivered plaintext is always a prefix of accepted plaintext. */
  lemma EndToEnd(w: CryptoWriter, r: CryptoReader)
    requires Joined(w, r)
    ensures r.delivered <= w.accepted
  {
    var ks := w.encryptor.ks;
    w.upstream.OnWireIsPrefix();
    r.upstream.GivenIsPrefix();
    if w.upstream.tls != null {
      AppPayloadMonotone(r.upstream.wire.arrived, w.upstream.wire.log);
    }
    assert r.upstream.given <= w.produced;
    CipherPrefix(ks, w.start, r.upstream.given, w.produced);
    CipherInvolutive(ks, w.start, w.accepted);
  }

  /** Nothing is lost: once the writer is flushed, the network has delivered everything and
      the reader holds nothing back, every accepted byte has been delivered. */
  lemma NothingLost(w: CryptoWriter, r: CryptoReader)
    requires Joined(w, r)
    requires w.upstream.OnWire() == w.produced
    requires r.upstream.wire.consumed == w.upstream.wire.log
    requires r.Dry()
    ensures r.delivered == w.accepted
  {
    if r.upstream.tls != null {
      r.upstream.tls.DeliversPayload();
    }
    assert r.upstream.given == w.produced;
    CipherInvolutive(w.encryptor.ks, w.start, w.accepted);
  }

  /** What callers and the network do; sockets act by their scripts. */
  datatype Op = Write(buf: seq<byte>) | Flush | Deliver(n: nat) | Read(max: nat)
  datatype Outcome = Wrote(w: Poll<nat>) | Flushed(f: Poll<()>) | Delivered | Got(r: Poll<seq<byte>>)

  predicate Fits(op: Op, out: Outcome) {
    match op
    case Write(buf) => out.Wrote? && (out.w.Ready? ==> out.w.value <= |buf| && (buf != [] ==> out.w.value > 0))
    case Flush => out.Flushed?
    case Deliver(_) => out.Delivered?
    case Read(max) => out.Got? && (out.r.Ready? ==> |out.r.value| <= max)
  }

  predicate AllFit(ops: seq<Op>, outs: seq<Outcome>) {
    |ops| == |outs| && forall i :: 0 <= i < |ops| ==> Fits(ops[i], outs[i])
  }

  /** The plaintext one outcome reports as accepted, and the plaintext it delivers. */
  function Took(op: Op, out: Outcome): seq<byte>
    requires Fits(op, out)
  {
    if op.Write? && out.w.Ready? then op.buf[..out.w.value] else []
  }

  function Gave(out: Outcome): seq<byte> {
    if out.Got? && out.r.Ready? then out.r.value else []
  }

  function AllTaken(ops: seq<Op>, outs: seq<Outcome>): seq<byte>
    requires AllFit(ops, outs)
  {
    if ops == [] then []
    else AllTaken(ops[..|ops| - 1], outs[..|ops| - 1]) + Took(ops[|ops| - 1], outs[|ops| - 1])
  }

  function AllGiven(outs: seq<Outcome>): seq<byte> {
    if outs == [] then [] else AllGiven(outs[..|outs| - 1]) + Gave(outs[|outs| - 1])
  }

  lemma Snoc(ops: seq<Op>, outs: seq<Outcome>, op: Op, out: Outcome)
    requires AllFit(ops, outs) && Fits(op, out)
    ensures AllFit(ops + [op], outs + [out])
    ensures AllTaken(ops + [op], outs + [out]) == AllTaken(ops, outs) + Took(op, out)
    ensures AllGiven(outs + [out]) == AllGiven(outs) + Gave(out)
  {
    assert (ops + [op])[..|ops|] == ops && (outs + [out])[..|ops|] == outs;
  }

  /** The data a peer extracts from a wire. */
  function Extracted(overTls: bool, wire: seq<byte>): seq<byte> {
    if overTls then AppPayload(wire) else wire
  }

  /** The writer's wire carries the encryption of everything it accepted. */
  ghost predicate AllSent(w: CryptoWriter)
    reads w, w.Repr(), w.upstream.wire
  {
    && Extracted(w.upstream.tls != null, w.upstream.wire.log) == Cipher(w.encryptor.ks, w.start, w.accepted)
    && (w.upstream.tls != null ==> Complete(w.upstream.wire.log))
  }

  method Open(overTls: bool, ks: Keystream, pos: nat, maxPending: nat,
              sinkScript: seq<Answer>, sourceScript: seq<Answer>)
    returns (w: CryptoWriter, r: CryptoReader)
    ensures Joined(w, r) && w.Repr() !! r.Repr() && fresh(w.Repr()) && fresh(r.Repr())
    ensures w.encryptor.ks == ks && w.start == pos && (w.upstream.tls != null) == overTls
    ensures w.accepted == [] && r.delivered == [] && !GaveUp(w, r) && w.maxPending == EffectiveLimit(maxPending)
  {
    hide CryptoWriter.Valid, CryptoReader.Valid;
    w := OpenWriter(overTls, ks, pos, maxPending, sinkScript);
    r := OpenReader(overTls, ks, pos, sourceScript);
  }

  method OpenWriter(overTls: bool, ks: Keystream, pos: nat, maxPending: nat, script: seq<Answer>)
    returns (w: CryptoWriter)
    ensures w.Valid() && fresh(w.Repr()) && w.accepted == [] && w.upstream.wire.log == []
    ensures w.state.Idle? && !w.upstream.Broken()
    ensures w.encryptor.ks == ks && w.start == pos && (w.upstream.tls != null) == overTls
    ensures w.maxPending == EffectiveLimit(maxPending)
  {
    hide CryptoWriter.Valid;
    var encryptor := new AesCtr(ks, pos);
    w := new CryptoWriter(overTls, script, encryptor, maxPending);
  }

  method OpenReader(overTls: bool, ks: Keystream, pos: nat, script: seq<Answer>) returns (r: CryptoReader)
    ensures r.Valid() && fresh(r.Repr()) && r.delivered == [] && r.state.Idle? && r.upstream.wire.arrived == []
    ensures r.decryptor.ks == ks && r.start == pos && (r.upstream.tls != null) == overTls
  {
    hide CryptoReader.Valid;
    var decryptor := new AesCtr(ks, pos);
    r := new CryptoReader(overTls, script, decryptor);
  }

  /** The network hands at most `n` more wire bytes to the reader's socket. */
  method Hand(w: CryptoWriter, r: CryptoReader, n: nat)
    requires Joined(w, r) && w.Repr() !! r.Repr()
    modifies r.upstream.wire
    ensures Joined(w, r) && r.delivered == old(r.delivered) && r.state == old(r.state)
    ensures var log := w.upstream.wire.log;
            r.upstream.wire.arrived == log[..Min(|old(r.upstream.wire.arrived)| + n, |log|)]
  {
    hide CryptoWriter.Valid, CryptoReader.Valid;
    var log, from := w.upstream.wire.log, |r.upstream.wire.arrived|;
    var upto := Min(from + n, |log|);
    assert log[..upto] == log[..from] + log[from..upto];
    r.Arrive(log[from..upto]);
  }

  method WriteOrFlush(op: Op, w: CryptoWriter, r: CryptoReader) returns (out: Outcome)
    requires op.Write? || op.Flush?
    requires Joined(w, r) && w.Repr() !! r.Repr()
    modifies w.Repr()
    ensures Joined(w, r) && fresh(w.Repr() - old(w.Repr()))
    ensures Fits(op, out)
    ensures w.accepted == old(w.accepted) + Took(op, out)
    ensures out.Flushed? && out.f.Ready? ==> AllSent(w)
    ensures out == Wrote(Pending) ==> |w.accepted| >= w.maxPending
    ensures GaveUp(w, r) ==> old(GaveUp(w, r)) || Failed(out)
    ensures !old(GaveUp(w, r)) && (op.Write? ==> op.buf != []) && !Failed(out) && !(out.Flushed? && out.f.Pending?) ==>
              w.upstream.wire.polls > old(w.upstream.wire.polls)
    ensures !old(GaveUp(w, r)) && Failed(out) ==> w.upstream.Refused(old(w.upstream.wire.polls))
  {
    hide CryptoWriter.Valid, CryptoReader.Valid, Cipher, AppPayload;
    if op.Write? {
      var p := w.PollWrite(op.buf);
      out := Wrote(p);
    } else {
      var p := w.PollFlush();
      out := Flushed(p);
    }
  }

  predicate Failed(out: Outcome) {
    match out
    case Wrote(w) => w.Fail?
    case Flushed(f) => f.Fail?
    case Delivered => false
    case Got(r) => r.Fail?
  }

  /** An end has given up. */
  ghost predicate GaveUp(w: CryptoWriter, r: CryptoReader)
    reads w, w.Repr(), r
  {
    w.state.Poisoned? || w.upstream.Broken() || r.state.Poisoned?
  }

  method DeliverOrRead(op: Op, w: CryptoWriter, r: CryptoReader) returns (out: Outcome)
    requires op.Deliver? || op.Read?
    requires Joined(w, r) && w.Repr() !! r.Repr()
    modifies r.Repr()
    ensures Joined(w, r) && fresh(r.Repr() - old(r.Repr()))
    ensures Fits(op, out)
    ensures r.delivered == old(r.delivered) + Gave(out)
    ensures out == Got(Pending) ==> r.Dry()
    ensures GaveUp(w, r) ==> old(GaveUp(w, r)) || Failed(out)
    ensures op.Read? && op.max > 0 && !old(r.state.Poisoned?) ==>
              r.Answered(out.r, old(r.Left()), old(r.upstream.Alerted()), old(r.upstream.wire.polls))
    ensures old(AllSent(w)) ==> AllSent(w)
  {
    hide CryptoWriter.Valid, CryptoReader.Valid, AllSent, CryptoReader.Dry, CryptoReader.Answered, CryptoReader.Left;
    if op.Deliver? {
      Hand(w, r, op.n);
      out := Outcome.Delivered;
    } else {
      var p := r.PollRead(op.max);
      out := Got(p);
    }
  }

  /** The wire bytes the reader's socket has handed over. */
  function Consumed(w: CryptoWriter, r: CryptoReader): (c: seq<byte>)
    requires Joined(w, r)
    reads w, w.Repr(), r, r.Repr()
    ensures c == r.upstream.wire.consumed
  {
    var wire := r.upstream.wire;
    assert wire.Valid();
    wire.arrived[..|wire.arrived| - |wire.avail|]
  }

  /** A dry reader has given everything its socket handed over. */
  lemma HandedOn(w: CryptoWriter, r: CryptoReader)
    requires Joined(w, r)
    ensures r.upstream.wire.consumed <= w.upstream.wire.log
    ensures r.Dry() ==> r.delivered == Cipher(w.encryptor.ks, w.start,
                                              Extracted(w.upstream.tls != null, r.upstream.wire.consumed))
  {
    hide Cipher;
    var consumed := r.upstream.wire.consumed;
    if r.upstream.tls != null {
      var tls := r.upstream.tls;
      tls.DeliversPayload();
      if r.Dry() {
        assert tls.delivered + [] == tls.delivered;
      }
    }
    if r.Dry() {
      assert r.upstream.given == Extracted(w.upstream.tls != null, consumed);
      assert r.delivered + [] == r.delivered;
    }
  }

  /** What a run may conclude from its last state. */
  lemma Conclude(w: CryptoWriter, r: CryptoReader)
    requires Joined(w, r)
    ensures r.upstream.wire.consumed <= w.upstream.wire.log && r.delivered <= w.accepted
    ensures r.Dry() ==> r.delivered == Cipher(w.encryptor.ks, w.start,
                                              Extracted(w.upstream.tls != null, r.upstream.wire.consumed))
    ensures r.Dry() && AllSent(w) && r.upstream.wire.consumed == w.upstream.wire.log ==> r.delivered == w.accepted
  {
    hide Cipher, Extracted, Joined, CryptoReader.Dry;
    EndToEnd(w, r);
    HandedOn(w, r);
    CipherInvolutive(w.encryptor.ks, w.start, w.accepted);
  }

  /** One operation on the joined pair. */
  method Act(op: Op, w: CryptoWriter, r: CryptoReader) returns (out: Outcome)
    requires Joined(w, r) && w.Repr() !! r.Repr()
    modifies w.Repr(), r.Repr()
    ensures Joined(w, r) && w.Repr() !! r.Repr()
    ensures fresh(w.Repr() - old(w.Repr())) && fresh(r.Repr() - old(r.Repr()))
    ensures Fits(op, out)
    ensures w.accepted == old(w.accepted) + Took(op, out)
    ensures r.delivered == old(r.delivered) + Gave(out)
    ensures out == Flushed(Ready(())) ==> AllSent(w)
    ensures (op.Deliver? || op.Read?) && old(AllSent(w)) ==> AllSent(w)
    ensures out == Wrote(Pending) ==> |w.accepted| >= w.maxPending
    ensures out == Got(Pending) ==> r.Dry()
    ensures GaveUp(w, r) ==> old(GaveUp(w, r)) || Failed(out)
  {
    hide CryptoWriter.Valid, CryptoReader.Valid, AllSent, CryptoReader.Dry;
    if op.Write? || op.Flush? {
      out := WriteOrFlush(op, w, r);
    } else {
      out := DeliverOrRead(op, w, r);
    }
  }

  /** After a successful flush nothing was written. */
  predicate Settled(ops: seq<Op>, outs: seq<Outcome>)
    requires |ops| == |outs|
  {
    exists i :: 0 <= i < |outs| && outs[i] == Flushed(Ready(())) && OnlyReadsAfter(ops, i)
  }

  predicate OnlyReadsAfter(ops: seq<Op>, i: nat) {
    forall j :: i < j < |ops| ==> ops[j].Deliver? || ops[j].Read?
  }

  /** A write was put off only when at least `limit` bytes had been accepted. */
  predicate Patient(limit: nat, ops: seq<Op>, outs: seq<Outcome>)
    requires AllFit(ops, outs)
  {
    ops == []
    || var n := |ops| - 1;
       && Patient(limit, ops[..n], outs[..n])
       && (outs[n] == Wrote(Pending) ==> |AllTaken(ops[..n], outs[..n])| >= limit)
  }

  lemma PatientSnoc(limit: nat, ops: seq<Op>, outs: seq<Outcome>, op: Op, out: Outcome)
    requires AllFit(ops, outs) && Fits(op, out) && Patient(limit, ops, outs)
    requires out == Wrote(Pending) ==> |AllTaken(ops, outs)| >= limit
    ensures AllFit(ops + [op], outs + [out]) && Patient(limit, ops + [op], outs + [out])
  {
    hide Fits;
    assert (ops + [op])[..|ops|] == ops && (outs + [out])[..|ops|] == outs;
    Snoc(ops, outs, op, out);
  }

  lemma NothingYet(limit: nat)
    ensures !Settled([], []) && AllFit([], []) && Patient(limit, [], []) && AllTaken([], []) == [] && AllGiven([]) == []
  {
  }

  lemma SettledSnoc(ops: seq<Op>, outs: seq<Outcome>, op: Op, out: Outcome)
    requires |ops| == |outs| && Settled(ops + [op], outs + [out])
    ensures out == Flushed(Ready(())) || ((op.Deliver? || op.Read?) && Settled(ops, outs))
  {
    var all, ends := ops + [op], outs + [out];
    var i :| 0 <= i < |ends| && ends[i] == Flushed(Ready(())) && OnlyReadsAfter(all, i);
    if i < |ops| {
      assert all[|ops|] == op;
      assert forall j :: i < j < |ops| ==> all[j] == ops[j];
      assert OnlyReadsAfter(ops, i) && outs[i] == ends[i];
    }
  }

  /** One operation, with the history of the run carried on. */
  method StepRun(op: Op, w: CryptoWriter, r: CryptoReader, ghost done: seq<Op>, ghost outs: seq<Outcome>)
    returns (out: Outcome)
    requires Joined(w, r) && w.Repr() !! r.Repr()
    requires AllFit(done, outs) && w.accepted == AllTaken(done, outs) && r.delivered == AllGiven(outs)
    requires Settled(done, outs) ==> AllSent(w)
    requires Patient(w.maxPending, done, outs)
    requires GaveUp(w, r) ==> exists out :: out in outs && Failed(out)
    modifies w.Repr(), r.Repr()
    ensures Joined(w, r) && w.Repr() !! r.Repr()
    ensures fresh(w.Repr() - old(w.Repr())) && fresh(r.Repr() - old(r.Repr()))
    ensures AllFit(done + [op], outs + [out])
    ensures w.accepted == AllTaken(done + [op], outs + [out]) && r.delivered == AllGiven(outs + [out])
    ensures Settled(done + [op], outs + [out]) ==> AllSent(w)
    ensures Patient(w.maxPending, done + [op], outs + [out])
    ensures out == Got(Pending) ==> r.Dry()
    ensures GaveUp(w, r) ==> exists out' :: out' in outs + [out] && Failed(out')
  {
    hide Joined, Settled, AllSent, AllTaken, AllGiven, Patient, CryptoReader.Dry;
    out := Act(op, w, r);
    Snoc(done, outs, op, out);
    PatientSnoc(w.maxPending, done, outs, op, out);
    hide Fits;
    if Settled(done + [op], outs + [out]) {
      SettledSnoc(done, outs, op, out);
    }
  }

  /** All operations of a run, and the state they leave. */
  method RunOps(overTls: bool, ks: Keystream, pos: nat, maxPending: nat,
                sinkScript: seq<Answer>, sourceScript: seq<Answer>, ops: seq<Op>)
    returns (w: CryptoWriter, r: CryptoReader, outs: seq<Outcome>)
    ensures Joined(w, r) && w.Repr() !! r.Repr() && fresh(w.Repr()) && fresh(r.Repr())
    ensures w.encryptor.ks == ks && w.start == pos && (w.upstream.tls != null) == overTls
    ensures |ops| == |outs| && AllFit(ops, outs) && w.accepted == AllTaken(ops, outs) && r.delivered == AllGiven(outs)
    ensures Settled(ops, outs) ==> AllSent(w)
    ensures Patient(EffectiveLimit(maxPending), ops, outs)
    ensures ops != [] && outs[|ops| - 1] == Got(Pending) ==> r.Dry()
    ensures GaveUp(w, r) ==> exists out :: out in outs && Failed(out)
  {
    hide Joined, Cipher, Fits, Settled, AllFit, AllTaken, AllGiven, Patient, CryptoReader.Dry, AllSent;
    w, r := Open(overTls, ks, pos, maxPending, sinkScript, sourceScript);
    outs := [];
    ghost var done: seq<Op> := [];
    NothingYet(w.maxPending);
    for i := 0 to |ops|
      invariant Joined(w, r) && w.Repr() !! r.Repr() && fresh(w.Repr()) && fresh(r.Repr())
      invariant done == ops[..i] && |outs| == i && AllFit(done, outs)
      invariant w.accepted == AllTaken(done, outs)
      invariant r.delivered == AllGiven(outs)
      invariant Settled(done, outs) ==> AllSent(w)
      invariant Patient(w.maxPending, done, outs)
      invariant i > 0 && outs[i - 1] == Got(Pending) ==> r.Dry()
      invariant GaveUp(w, r) ==> exists out :: out in outs && Failed(out)
    {
      var out := StepRun(ops[i], w, r, done, outs);
      outs, done := outs + [out], done + [ops[i]];
    }
    assert done == ops;
  }

  /** Every run of the joined pair: any operations, any socket behaviour on either side. The
      plaintext callers were given is a prefix of the plaintext callers were told is accepted, and
      a write is put off only when the pending limit's worth of bytes was accepted before.
      After a successful flush the wire carries the encryption of all of it; when a read finds
      nothing more, everything the reader's socket handed over was given; and so a run that was
      flushed, wholly handed over and read dry has given everything it accepted. */
  method Run(overTls: bool, ks: Keystream, pos: nat, maxPending: nat,
             sinkScript: seq<Answer>, sourceScript: seq<Answer>, ops: seq<Op>)
    returns (outs: seq<Outcome>, wire: seq<byte>, consumed: seq<byte>)
    ensures AllFit(ops, outs) && consumed <= wire
    ensures AllGiven(outs) <= AllTaken(ops, outs)
    ensures Patient(EffectiveLimit(maxPending), ops, outs)
    ensures Settled(ops, outs) ==> Extracted(overTls, wire) == Cipher(ks, pos, AllTaken(ops, outs))
    ensures ops != [] && outs[|ops| - 1] == Got(Pending) ==>
              AllGiven(outs) == Cipher(ks, pos, Extracted(overTls, consumed))
    ensures Settled(ops, outs) && consumed == wire && outs[|ops| - 1] == Got(Pending) ==>
              AllGiven(outs) == AllTaken(ops, outs)
  {
    hide Joined, Cipher, AllFit, AllTaken, AllGiven, Patient, CryptoReader.Dry;
    var w, r;
    w, r, outs := RunOps(overTls, ks, pos, maxPending, sinkScript, sourceScript, ops);
    Conclude(w, r);
    wire, consumed := w.upstream.wire.log, Consumed(w, r);
  }

  // ---- Reading to the end ----

  /** Everything was sent and handed over, and no read has failed. */
  ghost predicate HandedOver(w: CryptoWriter, r: CryptoReader)
    reads w, w.Repr(), r, r.Repr(), w.upstream.wire, r.upstream.wire
  {
    Joined(w, r) && AllSent(w) && r.upstream.wire.arrived == w.upstream.wire.log && !r.state.Poisoned?
  }

  /** No more is on its way than arrived. */
  lemma LeftWithin(r: CryptoReader)
    requires r.Valid()
    ensures r.Left() <= |r.upstream.wire.arrived|
  {
    hide AppPayload, Complete, Alerts;
    if r.upstream.tls != null {
      CarriesNoMore(r.upstream.tls.passed);
    }
  }

  /** With everything sent and handed over, a socket that neither fails nor ends early fails no read. */
  lemma NoFailure(w: CryptoWriter, r: CryptoReader)
    requires Joined(w, r) && AllSent(w) && r.upstream.wire.arrived == w.upstream.wire.log
    requires r.upstream.wire.broke.None? && (r.upstream.wire.eof ==> r.upstream.wire.avail == [])
    ensures !r.upstream.Failed()
  {
    hide AppPayload, Complete, Alerts, Cipher;
    if r.upstream.tls != null {
      r.upstream.tls.NeverPoisoned(w.upstream.wire.log);
    }
  }

  /** Nothing left on its way means that everything handed over was given. */
  lemma NothingLeft(w: CryptoWriter, r: CryptoReader)
    requires HandedOver(w, r) && r.Left() == 0
    ensures r.delivered == w.accepted
  {
    hide Cipher, AppPayload, Complete;
    assert r.upstream.wire.avail == [] && r.Dry();
    assert r.upstream.wire.consumed == w.upstream.wire.log;
    CipherInvolutive(w.encryptor.ks, w.start, w.accepted);
    HandedOn(w, r);
  }

  /** One read on a flowing socket: bytes, or the end once nothing is left. */
  method ReadOnce(w: CryptoWriter, r: CryptoReader, max: nat) returns (out: Outcome)
    requires HandedOver(w, r) && w.Repr() !! r.Repr() && r.upstream.wire.Flowing() && max > 0
    modifies r.Repr()
    ensures HandedOver(w, r) && fresh(r.Repr() - old(r.Repr()))
    ensures out.Got? && out.r.Ready? && r.delivered == old(r.delivered) + Gave(out)
    ensures r.Left() < old(r.Left()) || r.Left() == 0
    ensures Obliging(r.upstream.wire.script) && r.upstream.wire.Spare() >= old(r.upstream.wire.Spare()) - 1
  {
    hide CryptoReader.Valid, CryptoWriter.Valid, AllSent, AsyncSource.Failed, AsyncSource.Alerted;
    hide CryptoReader.Left, CryptoReader.Dry;
    var p := r.PollRead(max);
    out := Got(p);
    if p.Fail? {
      NoFailure(w, r);
    } else if p.Ready? && r.Left() >= old(r.Left()) {
      EndsEmpty(r, old(r.upstream.wire.polls));
    }
  }

  lemma EndsEmpty(r: CryptoReader, werePolls: nat)
    requires r.Valid() && r.upstream.EndsNow(werePolls) && r.upstream.wire.avail == [] && r.Dry()
    ensures r.Left() == 0
  {
    hide Cipher, AppPayload, Complete;
  }

  /** Enough reads on a flowing socket leave nothing on its way. */
  method ReadOn(w: CryptoWriter, r: CryptoReader, n: nat, max: nat) returns (outs: seq<Outcome>)
    requires HandedOver(w, r) && w.Repr() !! r.Repr() && max > 0 && n >= r.Left()
    requires Obliging(r.upstream.wire.script) && r.upstream.wire.Spare() > n
    modifies r.Repr()
    ensures |outs| == n && r.delivered == old(r.delivered) + AllGiven(outs)
    ensures r.delivered == w.accepted
  {
    hide HandedOver, CryptoReader.Left;
    outs := [];
    for i := 0 to n
      invariant HandedOver(w, r) && w.Repr() !! r.Repr() && fresh(r.Repr() - old(r.Repr()))
      invariant Obliging(r.upstream.wire.script) && r.upstream.wire.Spare() > n - i
      invariant |outs| == i && r.delivered == old(r.delivered) + AllGiven(outs)
      invariant r.Left() <= n - i
    {
      var out := ReadOnce(w, r, max);
      assert (outs + [out])[..i] == outs;
      outs := outs + [out];
    }
    NothingLeft(w, r);
  }

  /** Nothing accepted is ever lost: after any run in which nothing failed, once both sockets only move bytes,
      a flush sends everything, and after the network has handed over the rest, as many reads as there are
      wire bytes give all that was accepted. */
  method RunDry(overTls: bool, ks: Keystream, pos: nat, maxPending: nat, sinkScript: seq<Answer>,
                sourceScript: seq<Answer>, ops: seq<Op>, sinkAnswers: seq<Answer>, sourceAnswers: seq<Answer>, max: nat)
    returns (outs: seq<Outcome>, tail: seq<Outcome>)
    ensures AllFit(ops, outs) && Patient(EffectiveLimit(maxPending), ops, outs)
    ensures (forall out :: out in outs ==> !Failed(out)) && max > 0
            && Obliging(sinkAnswers) && |sinkAnswers| > 6 * |AllTaken(ops, outs)|
            && Obliging(sourceAnswers) && |sourceAnswers| > 12 * |AllTaken(ops, outs)| ==>
              AllGiven(outs) + AllGiven(tail) == AllTaken(ops, outs)
  {
    hide Joined, Settled, AllFit, AllTaken, AllGiven, Patient, CryptoReader.Dry, AllSent, GaveUp;
    var w, r;
    w, r, outs := RunOps(overTls, ks, pos, maxPending, sinkScript, sourceScript, ops);
    tail := Finish(w, r, sinkAnswers, sourceAnswers, max);
  }

  /** A flush; if it succeeds, the network hands over the rest and as many reads follow as there are wire bytes. */
  method Finish(w: CryptoWriter, r: CryptoReader, sinkAnswers: seq<Answer>, sourceAnswers: seq<Answer>, max: nat)
    returns (tail: seq<Outcome>)
    requires Joined(w, r) && w.Repr() !! r.Repr()
    modifies w.Repr(), r.Repr()
    ensures !old(GaveUp(w, r)) && max > 0
            && Obliging(sinkAnswers) && |sinkAnswers| > 6 * |old(w.accepted)|
            && Obliging(sourceAnswers) && |sourceAnswers| > 12 * |old(w.accepted)| ==>
              old(r.delivered) + AllGiven(tail) == old(w.accepted)
  {
    hide Joined, AllGiven, AllSent, HandedOver, GaveUp, CryptoReader.Left;
    var flushed := FlushAll(w, r, sinkAnswers);
    tail := [];
    var wire := w.upstream.wire.log;
    if flushed && max > 0 && Obliging(sourceAnswers) && |sourceAnswers| > 2 * |wire| {
      Prepare(w, r, sourceAnswers);
      tail := ReadOn(w, r, |wire|, max);
    }
  }

  /** A flush on a socket that only moves bytes sends everything accepted, unless an end had given up. */
  method FlushAll(w: CryptoWriter, r: CryptoReader, answers: seq<Answer>) returns (flushed: bool)
    requires Joined(w, r) && w.Repr() !! r.Repr()
    modifies w.Repr()
    ensures Joined(w, r) && fresh(w.Repr() - old(w.Repr())) && w.accepted == old(w.accepted)
    ensures flushed ==> AllSent(w) && !r.state.Poisoned? && |w.upstream.wire.log| <= 6 * |w.accepted|
    ensures !old(GaveUp(w, r)) && Obliging(answers) && |answers| > 6 * |w.accepted| ==> flushed
  {
    hide CryptoWriter.Valid, CryptoReader.Valid, AllSent;
    flushed := FlushFlowing(w, answers);
    flushed := flushed && !r.state.Poisoned?;
  }

  method FlushFlowing(w: CryptoWriter, answers: seq<Answer>) returns (flushed: bool)
    requires w.Valid()
    modifies w.Repr()
    ensures w.Valid() && fresh(w.Repr() - old(w.Repr())) && w.accepted == old(w.accepted)
    ensures old(w.upstream.wire.log) <= w.upstream.wire.log
    ensures flushed ==> AllSent(w) && |w.upstream.wire.log| <= 6 * |w.accepted|
    ensures !old(w.state.Poisoned?) && !old(w.upstream.Broken())
            && Obliging(answers) && |answers| > 6 * |w.accepted| ==>
              flushed
  {
    hide CryptoWriter.Valid, CryptoWriter.Slack, Cipher, AppPayload, Complete;
    w.Answers(answers);
    if !w.state.Poisoned? && !w.upstream.Broken() {
      w.SixForOne();
    }
    var p := w.PollFlush();
    flushed := p.Ready?;
    if flushed {
      w.SixForOne();
    }
  }

  /** The network hands over the rest, and the socket goes on by `answers`. */
  method Prepare(w: CryptoWriter, r: CryptoReader, answers: seq<Answer>)
    requires Joined(w, r) && w.Repr() !! r.Repr() && AllSent(w) && !r.state.Poisoned?
    modifies r.Repr()
    ensures HandedOver(w, r) && r.Repr() == old(r.Repr()) && r.delivered == old(r.delivered)
    ensures w.upstream.wire.log == old(w.upstream.wire.log)
    ensures r.upstream.wire.script == answers && r.Left() <= |w.upstream.wire.log|
    ensures |r.upstream.wire.avail| <= |w.upstream.wire.log|
  {
    hide CryptoReader.Valid, CryptoWriter.Valid, AllSent, CryptoReader.Left;
    Hand(w, r, |w.upstream.wire.log|);
    r.Answers(answers);
    AvailWithin(r);
    LeftWithin(r);
  }

  lemma AvailWithin(r: CryptoReader)
    requires r.Valid()
    ensures |r.upstream.wire.avail| <= |r.upstream.wire.arrived|
  {
    hide Cipher, AppPayload, Complete, Alerts;
  }
}
