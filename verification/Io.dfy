/** Poll results and the two socket halves. What a socket answers is decided by its
    environment: a script of answers fixed in advance and unknown to the streams above. */
module Io {
  import opened Bytes

  datatype Option<+T> = None | Some(value: T)

  datatype ErrorKind = WriteZero | InvalidData | UnexpectedEof | WouldBlock | Other | Os(code: nat)

  /** `Poll<io::Result<T>>`. */
  datatype Poll<+T> = Pending | Ready(value: T) | Fail(kind: ErrorKind)

  datatype Answer = Block | Move(n: nat) | Break(kind: ErrorKind)

  /** The write half of a connection. */
  class WireSink {
    var script: seq<Answer>
    /** Every byte written so far. */
    var log: seq<byte>
    /** Number of calls; whether the last one answered Pending or an error, or moved none of the bytes
        it was given; and whether any non-empty write ever failed or moved nothing. */
    ghost var polls: nat
    ghost var blocked: bool
    ghost var broke: bool
    ghost var stuck: bool
    ghost var fault: bool

    constructor (script: seq<Answer>)
      ensures log == [] && polls == 0 && !blocked && !broke && !stuck && !fault
    {
      this.script, log := script, [];
      polls, blocked, broke, stuck, fault := 0, false, false, false, false;
    }

    /** From now on the socket answers by another script. */
    method Answers(script: seq<Answer>)
      modifies this`script
      ensures this.script == script
    {
      this.script := script;
    }

    method NextAnswer() returns (a: Answer)
      modifies this`script
      ensures a == if old(script) == [] then Block else old(script)[0]
      ensures script == old(script)[Min(1, |old(script)|)..]
    {
      if script == [] {
        a := Block;
      } else {
        a, script := script[0], script[1..];
      }
    }

    method PollWrite(data: seq<byte>) returns (r: Poll<nat>)
      modifies this
      ensures r.Ready? ==> r.value <= |data| && log == old(log) + data[..r.value]
      ensures !r.Ready? ==> log == old(log)
      ensures polls == old(polls) + 1 && blocked == r.Pending? && broke == r.Fail?
      ensures stuck == (r == Ready(0) && data != [])
      ensures fault == (old(fault) || r.Fail? || (r == Ready(0) && data != []))
      ensures script == old(script)[Min(1, |old(script)|)..]
      ensures old(script) != [] && Obliging(old(script)) && data != [] ==> r.Ready? && r.value > 0
      ensures Obliging(old(script)) ==> Obliging(script)
    {
      var a := NextAnswer();
      assert old(script) != [] ==> a in old(script);
      match a {
        case Block => r := Pending;
        case Break(kind) => r := Fail(kind);
        case Move(n) =>
          var k: nat := Min(n, |data|);
          log := log + data[..k];
          r := Ready(k);
      }
      polls, blocked, broke := polls + 1, r.Pending?, r.Fail?;
      stuck := r == Ready(0) && data != [];
      fault := fault || r.Fail? || (r == Ready(0) && data != []);
    }

    method PollFlush() returns (r: Poll<()>)
      modifies this`script, this`polls, this`blocked, this`broke, this`stuck
      ensures polls == old(polls) + 1 && blocked == r.Pending? && broke == r.Fail? && !stuck
      ensures old(script) != [] && Obliging(old(script)) ==> r.Ready?
    {
      var a := NextAnswer();
      assert old(script) != [] ==> a in old(script);
      match a {
        case Block => r := Pending;
        case Break(kind) => r := Fail(kind);
        case Move(_) => r := Ready(());
      }
      polls, blocked, broke, stuck := polls + 1, r.Pending?, r.Fail?, false;
    }
  }

  /** The read half of a connection: `avail` has arrived and has not been read yet. */
  class WireSource {
    var script: seq<Answer>
    var avail: seq<byte>
    var arrived: seq<byte>
    ghost var consumed: seq<byte>
    /** Number of calls, and what the last one answered: Pending, no bytes, or an error. */
    ghost var polls: nat
    ghost var blocked: bool
    ghost var eof: bool
    ghost var broke: Option<ErrorKind>

    ghost predicate Valid()
      reads this
    {
      && arrived == consumed + avail
      && !(blocked && eof) && (broke.Some? ==> !blocked && !eof)
    }

    /** All answers to come move bytes, and there are more of them than bytes to move. */
    ghost predicate Flowing()
      reads this
    {
      Obliging(script) && Spare() > 0
    }

    /** Answers left over if every byte took one. */
    ghost function Spare(): int
      reads this
    {
      |script| - |avail|
    }

    /** The socket kept moving bytes: it neither blocked nor failed, and ended only for want of bytes. */
    ghost predicate Flowed(spare: int, more: bool)
      reads this
    {
      && Obliging(script) && Spare() >= spare - (if more then 0 else 1)
      && !blocked && broke.None? && (eof ==> avail == [])
    }

    constructor (script: seq<Answer>)
      ensures Valid() && arrived == [] && consumed == [] && polls == 0 && !blocked && !eof && broke.None?
      ensures this.script == script
    {
      this.script, avail, arrived := script, [], [];
      consumed, polls, blocked, eof, broke := [], 0, false, false, None;
    }

    /** The network hands over more bytes. */
    method Arrive(data: seq<byte>)
      requires Valid()
      modifies this`avail, this`arrived
      ensures Valid() && arrived == old(arrived) + data && avail == old(avail) + data
    {
      avail := avail + data;
      arrived := arrived + data;
    }

    /** From now on the socket answers by another script. */
    method Answers(script: seq<Answer>)
      requires Valid()
      modifies this`script
      ensures Valid() && this.script == script
    {
      this.script := script;
    }

    /** Ready with no bytes is end of stream. */
    method PollRead(max: nat) returns (r: Poll<seq<byte>>)
      requires Valid()
      modifies this
      ensures Valid() && arrived == old(arrived)
      ensures r == Told(old(script), old(avail), max) && script == old(script)[Min(1, |old(script)|)..]
      ensures r.Ready? ==> |r.value| <= max && consumed == old(consumed) + r.value
                           && old(avail) == r.value + avail
      ensures !r.Ready? ==> consumed == old(consumed) && avail == old(avail)
      ensures polls == old(polls) + 1 && blocked == r.Pending? && eof == (r == Ready([]))
      ensures broke == if r.Fail? then Some(r.kind) else None
      ensures old(Flowing()) && max > 0 ==> r.Ready? && (r.value == [] <==> old(avail) == [])
      ensures old(Flowing()) && max > 0 ==> Obliging(script)
      ensures old(Flowing()) && max > 0 ==> Spare() >= old(Spare()) - if r == Ready([]) then 1 else 0
    {
      hide Told;
      TellsBytes(script, avail, max);
      r := Told(script, avail, max);
      script := script[Min(1, |script|)..];
      if r.Ready? {
        consumed := consumed + r.value;
        avail := avail[|r.value|..];
      }
      polls, blocked, eof := polls + 1, r.Pending?, r == Ready([]);
      broke := if r.Fail? then Some(r.kind) else None;
    }
  }

  predicate Obliging(script: seq<Answer>) {
    forall a :: a in script ==> a.Move? && a.n > 0
  }

  lemma TellsBytes(script: seq<Answer>, avail: seq<byte>, max: nat)
    ensures var r := Told(script, avail, max);
            && (r.Ready? ==> |r.value| <= max && r.value <= avail)
            && (Obliging(script) && script != [] && max > 0 ==> r.Ready? && (r.value == [] <==> avail == []))
  {
    if script != [] {
      assert script[0] in script;
    }
  }

  /** What a source answers by its script; past its end it blocks. */
  function Told(script: seq<Answer>, avail: seq<byte>, max: nat): Poll<seq<byte>> {
    if script == [] then Pending
    else
      match script[0]
      case Block => Pending
      case Break(kind) => Fail(kind)
      case Move(n) => Ready(avail[..Min(n, Min(max, |avail|))])
  }
}
