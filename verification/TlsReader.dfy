/** `FakeTlsReader`: unwraps records arriving in arbitrary pieces (src/stream/tls_stream.rs). */
module TlsReader {
  import opened Bytes
  import opened Io
  import opened StreamBuffers
  import opened TlsRecord

  const READ_CHUNK: nat := 8192

  datatype State =
    | Idle
    | ReadingHeader(header: HeaderBuffer)
    | ReadingBody(kind: byte, length: nat, body: seq<byte>)
    | Yielding(buffer: YieldBuffer)
    | Poisoned(error: Option<ErrorKind>)
  {
    /** Orders the states one poll passes through without reading. */
    function Rank(): nat {
      match this
      case ReadingBody(_, _, _) => 3
      case Idle => 2
      case ReadingHeader(_) => 1
      case _ => 0
    }
  }

  datatype HeaderPoll = HeaderPending | HeaderEof | HeaderDone(h: RecordHeader) | HeaderError(kind: ErrorKind)
  datatype BodyPoll = BodyPending | BodyDone | BodyError(kind: ErrorKind)

  /** One read towards the header; None means that it brought something. */
  method FillSome(upstream: WireSource, header: HeaderBuffer) returns (stop: Option<HeaderPoll>, ghost chunk: seq<byte>)
    requires upstream.Valid() && header.Valid() && header.data.Length == HEADER_SIZE && header.filled < HEADER_SIZE
    modifies upstream, header, header.data
    ensures upstream.Valid() && upstream.arrived == old(upstream.arrived) && header.Valid()
    ensures upstream.consumed == old(upstream.consumed) + chunk
    ensures header.Contents() == old(header.Contents()) + chunk
    ensures header.filled + |upstream.avail| == old(header.filled + |upstream.avail|)
    ensures upstream.polls > old(upstream.polls)
    ensures stop.None? <==> chunk != []
    ensures stop.Some? ==> header.filled == old(header.filled)
    ensures stop == Answer(upstream, header.filled > 0)
    ensures old(upstream.Flowing()) ==> upstream.Flowed(old(upstream.Spare()), stop.None?)
  {
    chunk := [];
    var p := upstream.PollRead(HEADER_SIZE - header.filled);
    match p {
      case Pending => stop := Some(HeaderPending);
      case Fail(kind) => stop := Some(HeaderError(kind));
      case Ready(data) =>
        if data == [] {
          stop := Some(if header.filled == 0 then HeaderEof else HeaderError(UnexpectedEof));
        } else {
          header.Fill(data);
          stop, chunk := None, data;
        }
    }
  }

  /** What the socket's last answer means for a header: nothing, or why reading it stops. */
  ghost function Answer(upstream: WireSource, begun: bool): Option<HeaderPoll>
    reads upstream
  {
    if upstream.blocked then Some(HeaderPending)
    else if upstream.broke.Some? then Some(HeaderError(upstream.broke.value))
    else if upstream.eof then Some(if begun then HeaderError(UnexpectedEof) else HeaderEof)
    else None
  }

  /** Fill the header from whatever pieces the upstream delivers. */
  method PollHeader(upstream: WireSource, header: HeaderBuffer) returns (r: HeaderPoll, ghost got: seq<byte>)
    requires upstream.Valid() && header.Valid() && header.data.Length == HEADER_SIZE && header.filled < HEADER_SIZE
    modifies upstream, header, header.data
    ensures upstream.Valid() && upstream.arrived == old(upstream.arrived) && header.Valid()
    ensures upstream.consumed == old(upstream.consumed) + got
    ensures header.Contents() == old(header.Contents()) + got
    ensures r.HeaderDone? ==> header.filled == HEADER_SIZE && r.h == ParseHeader(header.Contents())
    ensures !r.HeaderDone? ==> header.filled < HEADER_SIZE
    ensures r.HeaderDone? ==> |upstream.avail| < |old(upstream.avail)|
    ensures header.filled + |upstream.avail| == old(header.filled + |upstream.avail|)
    ensures upstream.polls > old(upstream.polls)
    ensures Answer(upstream, header.filled > 0) == if r.HeaderDone? then None else Some(r)
    ensures old(upstream.Flowing()) ==> upstream.Flowed(old(upstream.Spare()), r.HeaderDone?)
  {
    got := [];
    while header.filled < HEADER_SIZE
      invariant upstream.Valid() && upstream.arrived == old(upstream.arrived) && header.Valid()
      invariant upstream.consumed == old(upstream.consumed) + got
      invariant header.Contents() == old(header.Contents()) + got
      invariant header.filled < HEADER_SIZE || upstream.polls > old(upstream.polls)
      invariant header.filled + |upstream.avail| == old(header.filled + |upstream.avail|)
      invariant upstream.polls >= old(upstream.polls)
      invariant upstream.polls > old(upstream.polls) ==> Answer(upstream, header.filled > 0).None?
      invariant old(upstream.Flowing()) ==> Obliging(upstream.script) && upstream.Spare() >= old(upstream.Spare())
      decreases HEADER_SIZE - header.filled
    {
      ghost var chunk;
      var stop;
      stop, chunk := FillSome(upstream, header);
      got := got + chunk;
      if stop.Some? {
        return stop.value, got;
      }
    }
    assert header.data[..] == header.Contents();
    r := HeaderDone(ParseHeader(header.data[..]));
  }

  /** What the socket's last answer means for a body. */
  ghost function BodyAnswer(upstream: WireSource): Option<BodyPoll>
    reads upstream
  {
    if upstream.blocked then Some(BodyPending)
    else if upstream.broke.Some? then Some(BodyError(upstream.broke.value))
    else if upstream.eof then Some(BodyError(UnexpectedEof))
    else None
  }

  /** Extend `body` up to `target` bytes, reading at most READ_CHUNK at a time. */
  method PollBody(upstream: WireSource, body: seq<byte>, target: nat)
    returns (r: BodyPoll, full: seq<byte>, ghost got: seq<byte>)
    requires upstream.Valid() && |body| <= target
    modifies upstream
    ensures upstream.Valid() && upstream.arrived == old(upstream.arrived)
    ensures upstream.consumed == old(upstream.consumed) + got && full == body + got
    ensures |full| + |upstream.avail| == |body| + |old(upstream.avail)|
    ensures r.BodyDone? ==> |full| == target
    ensures !r.BodyDone? ==> |full| < target && upstream.polls > old(upstream.polls)
    ensures |body| < target ==> upstream.polls > old(upstream.polls)
    ensures upstream.polls >= old(upstream.polls)
    ensures upstream.polls > old(upstream.polls) ==>
              BodyAnswer(upstream) == if r.BodyDone? then None else Some(r)
    ensures upstream.polls == old(upstream.polls) ==>
              Untouched(upstream, old(upstream.script), old(upstream.avail), old(upstream.blocked),
                        old(upstream.eof), old(upstream.broke))
    ensures old(upstream.Flowing()) && upstream.polls > old(upstream.polls) ==>
              upstream.Flowed(old(upstream.Spare()), r.BodyDone?)
  {
    full, got := body, [];
    while |full| < target
      invariant upstream.Valid() && upstream.arrived == old(upstream.arrived) && |full| <= target
      invariant upstream.consumed == old(upstream.consumed) + got && full == body + got
      invariant |full| + |upstream.avail| == |body| + |old(upstream.avail)|
      invariant upstream.polls >= old(upstream.polls)
      invariant upstream.polls > old(upstream.polls) ==> BodyAnswer(upstream).None?
      invariant full != body ==> upstream.polls > old(upstream.polls)
      invariant upstream.polls == old(upstream.polls) ==>
                  Untouched(upstream, old(upstream.script), old(upstream.avail), old(upstream.blocked),
                            old(upstream.eof), old(upstream.broke))
      invariant old(upstream.Flowing()) ==> Obliging(upstream.script) && upstream.Spare() >= old(upstream.Spare())
      decreases target - |full|
    {
      var p := upstream.PollRead(Min(target - |full|, READ_CHUNK));
      match p {
        case Pending => return BodyPending, full, got;
        case Fail(kind) => return BodyError(kind), full, got;
        case Ready(chunk) =>
          if chunk == [] {
            return BodyError(UnexpectedEof), full, got;
          }
          full, got := full + chunk, got + chunk;
      }
    }
    r := BodyDone;
  }

  /** The socket was not asked. */
  ghost predicate Untouched(upstream: WireSource, script: seq<Answer>, avail: seq<byte>,
                            blocked: bool, eof: bool, broke: Option<ErrorKind>)
    reads upstream
  {
    && upstream.script == script && upstream.avail == avail
    && upstream.blocked == blocked && upstream.eof == eof && upstream.broke == broke
  }

  class FakeTlsReader {
    const upstream: WireSource
    var state: State
    /** History: payload handed to the caller and payload still held; wire bytes of finished records and of the one
        under way (whose header is `head`); alerts among the finished records. */
    ghost var delivered: seq<byte>
    ghost var undelivered: seq<byte>
    ghost var passed: seq<byte>
    ghost var partial: seq<byte>
    ghost var head: seq<byte>
    ghost var alerts: nat

    ghost function Repr(): set<object>
      reads this
    {
      {this, upstream}
      + (if state.ReadingHeader? then {state.header, state.header.data} else {})
      + (if state.Yielding? then {state.buffer} else {})
    }

    /** Why reading cannot go on: the socket failed or ended inside a record, or the record under
        way is unreadable. */
    ghost predicate Spoiled()
      reads this, upstream
    {
      upstream.broke.Some? || (upstream.eof && partial != []) || Unreadable(partial)
    }

    /** The error that goes with it. */
    ghost function Cause(): ErrorKind
      reads this, upstream
    {
      if upstream.broke.Some? then upstream.broke.value
      else if upstream.eof && partial != [] then UnexpectedEof
      else InvalidData
    }

    /** Wire bytes and payload bytes on the way to the caller. */
    ghost function Left(): nat
      reads this, upstream
    {
      |upstream.avail| + |partial| + |undelivered|
    }

    ghost predicate StateOk()
      reads this, Repr()
    {
      match state
      case Idle => partial == [] && upstream.broke.None?
      case Yielding(buffer) =>
        partial == [] && buffer.Valid() && buffer.Remaining() == undelivered != [] && upstream.broke.None?
      case ReadingHeader(header) =>
        && header.Valid() && header.data.Length == HEADER_SIZE && header.filled < HEADER_SIZE
        && header.Contents() == partial && upstream.broke.None? && (upstream.eof ==> partial == [])
      case ReadingBody(kind, length, body) =>
        && |head| == HEADER_SIZE && ValidHeader(ParseHeader(head)) && kind == head[0]
        && length == ParseHeader(head).length && |body| <= length && partial == head + body
        && upstream.broke.None? && !upstream.eof && (|body| == length ==> !upstream.blocked)
      case Poisoned(_) => !StartsWithRecord(partial) && Spoiled()
    }

    /** The run invariant: every byte read belongs to a finished record or to the one under
        way, and delivered plus undelivered bytes are what the finished records carry. */
    ghost predicate Inv()
      reads this, Repr()
    {
      && upstream.Valid()
      && upstream.consumed == passed + partial
      && Complete(passed) && alerts == Alerts(passed)
      && delivered + undelivered == AppPayload(passed)
      && StateOk()
      && (!state.Yielding? ==> undelivered == [])
    }

    ghost predicate Valid()
      reads this, Repr()
    {
      Inv() && (state.ReadingBody? ==> |state.body| < state.length)
    }

    /** Under any chunking, nothing read is lost, reordered or duplicated. */
    lemma DeliversPayload()
      requires Valid()
      ensures delivered + undelivered == AppPayload(upstream.consumed)
      ensures !StartsWithRecord(partial)
    {
      if state.ReadingBody? {
        assert partial[..HEADER_SIZE] == head;
      }
      PartialCarriesNothing(passed, partial);
    }

    /** A reader is poisoned if and only if the socket failed, or ended inside a record, or the
        record under way has an invalid header or is complete and of an unknown kind. */
    lemma PoisonedExactly()
      requires Valid()
      ensures state.Poisoned? <==> Spoiled()
    {
      if state.ReadingBody? {
        assert partial[..HEADER_SIZE] == head;
      }
    }

    /** On the start of a wire of complete records, with a socket that neither fails nor ends inside
        one, the reader is never poisoned. */
    lemma NeverPoisoned(wire: seq<byte>)
      requires Valid() && Complete(wire) && upstream.arrived <= wire
      requires upstream.broke.None? && (upstream.eof ==> upstream.consumed == wire)
      ensures !state.Poisoned?
      ensures upstream.consumed == wire ==> partial == []
    {
      hide Complete, AppPayload, Alerts, Unreadable;
      DeliversPayload();
      PoisonedExactly();
      CompleteIsReadable(passed, partial, wire);
    }

    /** What was delivered or is held back is the data before the first alert exactly when no
        application data was read behind one. */
    lemma StopsAtAlert()
      requires Valid()
      ensures delivered + undelivered == BeforeAlert(upstream.consumed)
         <==> AppPayload(AfterAlert(upstream.consumed)) == []
    {
      DeliversPayload();
      AlertEndsStream(upstream.consumed);
    }

    constructor (script: seq<Answer>)
      ensures Valid() && fresh(Repr()) && state.Idle? && delivered == [] && undelivered == []
      ensures upstream.consumed == [] && upstream.arrived == [] && upstream.avail == []
      ensures upstream.script == script && upstream.broke.None? && !upstream.eof
    {
      upstream := new WireSource(script);
      state, alerts := Idle, 0;
      delivered, undelivered, passed, partial, head := [], [], [], [], [];
    }

    method StartHeader()
      requires Inv() && state.Idle?
      modifies this`state
      ensures Inv() && state.ReadingHeader? && fresh(state.header) && fresh(state.header.data)
    {
      var header := new HeaderBuffer(HEADER_SIZE);
      state := ReadingHeader(header);
    }

    /** Read the header of the record under way; None means the poll goes on. */
    method StepHeader() returns (out: Option<Poll<seq<byte>>>)
      requires Inv() && state.ReadingHeader?
      modifies Repr()
      ensures Inv() && Repr() <= old(Repr())
      ensures delivered == old(delivered) && undelivered == [] && alerts == old(alerts)
      ensures upstream.arrived == old(upstream.arrived) && old(upstream.consumed) <= upstream.consumed
      ensures upstream.polls > old(upstream.polls) && Left() == old(Left())
      ensures out.None? ==> state.ReadingBody? && |upstream.avail| < |old(upstream.avail)|
                            && !upstream.blocked && !upstream.eof
      ensures out.Some? ==> Stopped(out.value, old(alerts), old(Left()), old(upstream.polls))
      ensures out.Some? ==> !state.ReadingBody?
      ensures old(upstream.Flowing()) ==> upstream.Flowed(old(upstream.Spare()), out.None?)
    {
      hide AppPayload, Complete, Alerts;
      var header := state.header;
      var p, got := PollHeader(upstream, header);
      partial := header.Contents();
      match p {
        case HeaderPending =>
          out := Some(Pending);
        case HeaderEof =>
          state := Idle;
          out := Some(Ready([]));
        case HeaderError(kind) =>
          state := Poisoned(Some(kind));
          out := Some(Fail(kind));
        case HeaderDone(h) =>
          out := CheckHeader(h);
      }
    }

    /** Why a poll ends without payload: the socket blocks; reading cannot go on; the stream ended between
        records; or an alert was passed. */
    ghost predicate Stopped(r: Poll<seq<byte>>, wereAlerts: nat, wasLeft: nat, werePolls: nat)
      reads this, Repr()
    {
      if upstream.blocked then
        && r == Pending && (state.ReadingHeader? || state.ReadingBody?)
        && alerts == wereAlerts && upstream.polls > werePolls
      else if state.Poisoned? then
        r == Fail(Cause()) && alerts == wereAlerts
      else
        && r == Ready([]) && state.Idle?
        && if upstream.eof then alerts == wereAlerts && upstream.polls > werePolls
           else alerts == wereAlerts + 1 && Left() < wasLeft
    }

    /** A complete header: reject it or start its body. */
    method CheckHeader(h: RecordHeader) returns (out: Option<Poll<seq<byte>>>)
      requires upstream.Valid() && upstream.consumed == passed + partial && Complete(passed) && alerts == Alerts(passed)
      requires delivered + undelivered == AppPayload(passed) && undelivered == []
      requires |partial| == HEADER_SIZE && h == ParseHeader(partial)
      requires upstream.broke.None? && !upstream.eof && !upstream.blocked
      modifies this`state, this`head
      ensures Inv()
      ensures out.None? ==> state.ReadingBody?
      ensures out.Some? ==> out.value == Fail(Cause()) && state.Poisoned?
    {
      assert partial[..HEADER_SIZE] == partial;
      if h.major != 3 || (h.minor != 1 && h.minor != 3) || h.length > MAX_PAYLOAD {
        state := Poisoned(Some(InvalidData));
        out := Some(Fail(InvalidData));
      } else {
        head := partial;
        state := ReadingBody(h.kind, h.length, []);
        out := None;
      }
    }

    /** The record under way is finished and acceptable: pass over it. */
    ghost method Pass()
      requires Inv() && state.ReadingBody? && |state.body| == state.length && Accepted(state.kind)
      modifies this`passed, this`partial, this`alerts
      ensures passed + partial == upstream.consumed && partial == []
      ensures alerts == old(alerts) + if state.kind == ALERT then 1 else 0
      ensures Complete(passed) && alerts == Alerts(passed)
      ensures AppPayload(passed) == delivered + (if state.kind == APPLICATION then state.body else [])
    {
      hide AppPayload, Complete, Alerts, ParseHeader;
      FinishRecord(passed, head, state.body);
      passed, partial := passed + partial, [];
      alerts := alerts + if state.kind == ALERT then 1 else 0;
    }

    /** Act on a finished record according to its kind. */
    method FinishBody() returns (out: Option<Poll<seq<byte>>>)
      requires Inv() && state.ReadingBody? && |state.body| == state.length && !upstream.blocked
      modifies this
      ensures Inv() && fresh(Repr() - old(Repr()))
      ensures delivered == old(delivered)
      ensures out.None? ==> (state.Idle? || state.Yielding?) && alerts == old(alerts) && Left() < old(Left())
      ensures out.Some? ==> if state.Poisoned? then out.value == Fail(Cause()) && alerts == old(alerts)
                                                    && Left() == old(Left())
                            else out.value == Ready([]) && state.Idle? && alerts == old(alerts) + 1
                                 && Left() < old(Left())
    {
      hide AppPayload, Complete, Alerts;
      var kind, data := state.kind, state.body;
      if kind == CHANGE_CIPHER {
        Pass();
        state := Idle;
        out := None;
      } else if kind == APPLICATION {
        Pass();
        if data == [] {
          state := Idle;
        } else {
          var buffer := new YieldBuffer(data);
          state, undelivered := Yielding(buffer), data;
        }
        out := None;
      } else if kind == ALERT {
        Pass();
        state := Idle;
        out := Some(Ready([]));
      } else {
        assert partial[..HEADER_SIZE] == head;
        state := Poisoned(Some(InvalidData));
        out := Some(Fail(InvalidData));
      }
    }

    /** Read the body of the record under way and act on it when complete. */
    method StepBody() returns (out: Option<Poll<seq<byte>>>)
      requires Inv() && state.ReadingBody?
      modifies this, upstream
      ensures Inv() && fresh(Repr() - old(Repr()))
      ensures delivered == old(delivered) && Left() <= old(Left())
      ensures upstream.arrived == old(upstream.arrived) && old(upstream.consumed) <= upstream.consumed
      ensures |upstream.avail| <= |old(upstream.avail)| && upstream.polls >= old(upstream.polls)
      ensures out.None? ==> (state.Idle? || state.Yielding?) && alerts == old(alerts) && !upstream.eof
      ensures out.None? ==> !upstream.blocked
      ensures out.Some? ==> Stopped(out.value, old(alerts), old(Left()), old(upstream.polls))
      ensures state.ReadingBody? ==> |state.body| < state.length
      ensures old(|state.body| < state.length) ==> upstream.polls > old(upstream.polls)
      ensures upstream.polls == old(upstream.polls) ==>
                Untouched(upstream, old(upstream.script), old(upstream.avail), old(upstream.blocked),
                          old(upstream.eof), old(upstream.broke))
      ensures old(upstream.Flowing()) && upstream.polls > old(upstream.polls) ==>
                upstream.Flowed(old(upstream.Spare()), out.None?)
    {
      hide AppPayload, Complete, Alerts;
      var kind, length, body := state.kind, state.length, state.body;
      var p, full, got := PollBody(upstream, body, length);
      partial := head + full;
      assert partial[..HEADER_SIZE] == head;
      state := ReadingBody(kind, length, full);
      match p {
        case BodyPending =>
          out := Some(Pending);
        case BodyError(e) =>
          state := Poisoned(Some(e));
          out := Some(Fail(e));
        case BodyDone =>
          out := FinishBody();
      }
    }

    /** Hand out buffered payload. */
    method Yield(max: nat) returns (chunk: seq<byte>)
      requires Inv() && state.Yielding? && max > 0
      modifies this, state.buffer
      ensures Valid() && Repr() <= old(Repr())
      ensures |chunk| <= max && delivered == old(delivered) + chunk
      ensures |chunk| < max ==> undelivered == []
      ensures chunk != [] && (state.Idle? || state.Yielding?)
      ensures alerts == old(alerts) && partial == [] && Left() < old(Left())
    {
      hide AppPayload, Complete, Alerts;
      var buffer := state.buffer;
      chunk := buffer.CopyTo(max);
      ghost var rest := buffer.Remaining();
      assert delivered + (chunk + rest) == (delivered + chunk) + rest;
      delivered, undelivered := delivered + chunk, rest;
      if buffer.position >= |buffer.data| {
        state := Idle;
      }
    }

    /** What one answer of a poll promises; `max` is the room in the caller's buffer. */
    ghost predicate Answered(r: Poll<seq<byte>>, max: nat, before: seq<byte>,
                             wereAlerts: nat, wasLeft: nat, werePolls: nat)
      reads this, Repr()
    {
      && Valid()
      && delivered == before + (if r.Ready? then r.value else [])
      && (r.Ready? ==> |r.value| <= max && (|r.value| < max ==> undelivered == []))
      && (r.Pending? ==> undelivered == [])
      && (r.Pending? <==> upstream.polls > werePolls && upstream.blocked)
      && (r.Fail? <==> state.Poisoned?) && (r.Fail? ==> r.kind == Cause())
      && (max > 0 ==> (r == Ready([]) <==> EndsNow(werePolls) || alerts > wereAlerts))
      && (max > 0 && r.Ready? ==> Left() < wasLeft || (r.value == [] && EndsNow(werePolls)))
    }

    /** The socket just ended, between two records. */
    ghost predicate EndsNow(werePolls: nat)
      reads this, upstream
    {
      upstream.polls > werePolls && upstream.eof && partial == []
    }

    /** One turn of the poll loop; None means it goes round again. */
    method Step(max: nat) returns (out: Option<Poll<seq<byte>>>)
      requires Inv() && !state.Poisoned?
      modifies Repr()
      ensures Inv() && fresh(Repr() - old(Repr()))
      ensures upstream.arrived == old(upstream.arrived) && old(upstream.consumed) <= upstream.consumed
      ensures upstream.polls >= old(upstream.polls) && Left() <= old(Left())
      ensures out.Some? ==> Answered(out.value, max, old(delivered), old(alerts), old(Left()), old(upstream.polls))
      ensures out.None? ==> delivered == old(delivered) && alerts == old(alerts) && !state.Poisoned?
      ensures out.None? && upstream.polls > old(upstream.polls) ==> !upstream.blocked && !upstream.eof
      ensures old(Valid()) && upstream.polls == old(upstream.polls) ==> Valid() && !(out.Some? && out.value.Fail?)
      ensures upstream.polls == old(upstream.polls) ==>
                Untouched(upstream, old(upstream.script), old(upstream.avail), old(upstream.blocked),
                          old(upstream.eof), old(upstream.broke))
      ensures out.None? ==> |upstream.avail| < |old(upstream.avail)|
                            || (|upstream.avail| == |old(upstream.avail)| && state.Rank() < old(state).Rank())
      ensures old(upstream.Flowing()) && upstream.polls > old(upstream.polls) ==>
                upstream.Flowed(old(upstream.Spare()), out.None?)
    {
      hide AppPayload, Complete, Alerts;
      match state {
        case Yielding(_) =>
          if max == 0 {
            out := Some(Ready([]));
          } else {
            var chunk := Yield(max);
            out := Some(Ready(chunk));
          }
        case Idle =>
          if max == 0 {
            out := Some(Ready([]));
          } else {
            StartHeader();
            out := None;
          }
        case ReadingHeader(_) =>
          out := StepHeader();
        case ReadingBody(_, _, _) =>
          out := StepBody();
      }
    }

    /** Ready with bytes: the next payload bytes. Ready without bytes: end of stream at a record
        boundary, or an alert, and nothing else. Pending: the socket blocks and nothing is held back.
        Fail: the socket failed, or ended inside a record, or a record is unreadable, and only then. */
    method PollRead(max: nat) returns (r: Poll<seq<byte>>)
      requires Valid()
      modifies Repr()
      ensures fresh(Repr() - old(Repr()))
      ensures upstream.arrived == old(upstream.arrived) && old(upstream.consumed) <= upstream.consumed
      ensures !old(state).Poisoned? ==>
                Answered(r, max, old(delivered), old(alerts), old(Left()), old(upstream.polls))
      ensures !old(state).Poisoned? && r.Fail? ==> upstream.polls > old(upstream.polls)
      ensures old(state).Poisoned? ==>
                && Valid() && state == Poisoned(None) && delivered == old(delivered)
                && r == Fail(if old(state).error.Some? then old(state).error.value else Other)
      ensures upstream.polls >= old(upstream.polls)
      ensures upstream.polls == old(upstream.polls) ==>
                upstream.script == old(upstream.script) && upstream.avail == old(upstream.avail)
      ensures old(upstream.Flowing()) && upstream.polls > old(upstream.polls) ==>
                upstream.Flowed(old(upstream.Spare()), false)
    {
      hide AppPayload, Complete, Alerts;
      if state.Poisoned? {
        var error := state.error;
        state := Poisoned(None);
        return Fail(if error.Some? then error.value else Other);
      }
      while true
        invariant Inv() && fresh(Repr() - old(Repr())) && !state.Poisoned?
        invariant delivered == old(delivered) && alerts == old(alerts) && Left() <= old(Left())
        invariant upstream.arrived == old(upstream.arrived) && old(upstream.consumed) <= upstream.consumed
        invariant upstream.polls >= old(upstream.polls)
        invariant upstream.polls > old(upstream.polls) ==> !upstream.blocked && !upstream.eof
        invariant upstream.polls == old(upstream.polls) ==>
                    Valid() && Untouched(upstream, old(upstream.script), old(upstream.avail), old(upstream.blocked),
                              old(upstream.eof), old(upstream.broke))
        invariant old(upstream.Flowing()) && upstream.polls > old(upstream.polls) ==>
                    upstream.Flowed(old(upstream.Spare()), true)
        decreases |upstream.avail|, state.Rank()
      {
        var out := Step(max);
        if out.Some? {
          return out.value;
        }
      }
    }
  }
}
