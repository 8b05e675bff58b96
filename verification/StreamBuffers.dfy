/** The buffers the stream state machines own (src/stream/state.rs). */
module StreamBuffers {
  import opened Bytes

  /** Bytes waiting to be written, with an explicit position. */
  class WriteBuffer {
    var buffer: seq<byte>
    var position: nat
    const maxSize: nat

    ghost predicate Valid()
      reads this
    {
      position <= |buffer|
    }

    ghost function Contents(): seq<byte>
      reads this
    {
      if position <= |buffer| then buffer[position..] else []
    }

    constructor WithMaxSize(maxSize: nat)
      ensures Valid() && buffer == [] && this.maxSize == maxSize
    {
      buffer, position, this.maxSize := [], 0, maxSize;
    }

    predicate IsEmpty()
      requires Valid()
      reads this
      ensures IsEmpty() == (Contents() == [])
    {
      position >= |buffer|
    }

    method Extend(data: seq<byte>) returns (ok: bool)
      requires Valid()
      modifies this
      ensures Valid() && ok == (old(|buffer|) + |data| <= maxSize)
      ensures Contents() == if ok then old(Contents()) + data else old(Contents())
    {
      ok := |buffer| + |data| <= maxSize;
      if ok {
        buffer := buffer + data;
      }
    }

    method Advance(n: nat)
      requires Valid()
      modifies this
      ensures Valid()
      ensures Contents() == old(Contents())[Min(n, |old(Contents())|)..]
    {
      position := position + n;
      if position >= |buffer| {
        buffer, position := [], 0;
      }
    }
  }

  /** A fixed-size header being filled: only the filled prefix of `data` is meaningful. */
  class HeaderBuffer {
    const data: array<byte>
    var filled: nat

    ghost predicate Valid()
      reads this
    {
      filled <= data.Length
    }

    ghost function Contents(): seq<byte>
      reads this, data
    {
      if filled <= data.Length then data[..filled] else []
    }

    constructor (size: nat)
      ensures Valid() && fresh(data) && data.Length == size && filled == 0
    {
      data := new byte[size](_ => 0);
      filled := 0;
    }

    /** Store `chunk` into the unfilled part and advance past it. */
    method Fill(chunk: seq<byte>)
      requires Valid() && filled + |chunk| <= data.Length
      modifies this, data
      ensures Valid() && filled == old(filled) + |chunk|
      ensures Contents() == old(Contents()) + chunk
    {
      forall i | 0 <= i < |chunk| {
        data[filled + i] := chunk[i];
      }
      filled := filled + |chunk|;
    }
  }

  /** Data handed to the caller piece by piece. */
  class YieldBuffer {
    const data: seq<byte>
    var position: nat

    ghost predicate Valid()
      reads this
    {
      position <= |data|
    }

    ghost function Remaining(): seq<byte>
      reads this
    {
      if position <= |data| then data[position..] else []
    }

    constructor (data: seq<byte>)
      ensures Valid() && Remaining() == data
    {
      this.data, position := data, 0;
    }

    method CopyTo(max: nat) returns (chunk: seq<byte>)
      requires Valid()
      modifies this
      ensures Valid() && |chunk| == Min(max, |old(Remaining())|)
      ensures old(Remaining()) == chunk + Remaining()
    {
      var n: nat := Min(max, |data| - position);
      chunk := data[position..position + n];
      position := position + n;
    }
  }
}
