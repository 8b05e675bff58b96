/** TLS record layer as FakeTLS uses it (src/stream/tls_stream.rs): the five-byte header,
    its validation, and what a byte stream of records carries. */
module TlsRecord {
  import opened Bytes

  const HEADER_SIZE: nat := 5
  /** Section 5.2 of RFC 8446: at most 2^14 + 256 bytes in a record. */
  const MAX_PAYLOAD: nat := 16384 + 256

  const APPLICATION: byte := 0x17
  const CHANGE_CIPHER: byte := 0x14
  const ALERT: byte := 0x15
  const HANDSHAKE: byte := 0x16

  datatype RecordHeader = RecordHeader(kind: byte, major: byte, minor: byte, length: nat)

  function ParseHeader(h: seq<byte>): (r: RecordHeader)
    requires |h| == HEADER_SIZE
    ensures r.length < 65536
  {
    var hi: int, lo: int := h[3], h[4];
    RecordHeader(h[0], h[1], h[2], 256 * hi + lo)
  }

  predicate ValidHeader(h: RecordHeader) {
    && h.major == 3 && (h.minor == 1 || h.minor == 3)
    && h.length <= MAX_PAYLOAD
  }

  /** The length field is the low sixteen bits of `length`. */
  function HeaderBytes(h: RecordHeader): (r: seq<byte>)
    ensures |r| == HEADER_SIZE
  {
    [h.kind, h.major, h.minor, h.length / 256 % 256, h.length % 256]
  }

  function BuildRecord(data: seq<byte>): (r: seq<byte>)
    ensures |r| == HEADER_SIZE + |data|
  {
    HeaderBytes(RecordHeader(APPLICATION, 3, 3, |data|)) + data
  }

  lemma HeaderRoundTrip(h: RecordHeader)
    ensures ParseHeader(HeaderBytes(h)) == h <==> h.length < 65536
  {
  }

  /** Record kinds a reader passes over without an error. */
  predicate Accepted(kind: byte) {
    kind == APPLICATION || kind == CHANGE_CIPHER || kind == ALERT
  }

  /** The stream starts with a complete record a reader passes over. */
  predicate StartsWithRecord(wire: seq<byte>) {
    && |wire| >= HEADER_SIZE
    && ValidHeader(ParseHeader(wire[..HEADER_SIZE]))
    && Accepted(wire[0])
    && |wire| >= RecordSize(wire)
  }

  function RecordSize(wire: seq<byte>): (n: nat)
    requires |wire| >= HEADER_SIZE
    ensures n >= HEADER_SIZE
  {
    HEADER_SIZE + ParseHeader(wire[..HEADER_SIZE]).length
  }

  /** Nothing but complete records. */
  predicate Complete(wire: seq<byte>)
    decreases |wire|
  {
    wire == [] || (StartsWithRecord(wire) && Complete(wire[RecordSize(wire)..]))
  }

  /** What the first record contributes to the data stream. */
  function RecordData(wire: seq<byte>): seq<byte>
    requires StartsWithRecord(wire)
  {
    if wire[0] == APPLICATION then wire[HEADER_SIZE..RecordSize(wire)] else []
  }

  /** Application data carried by the complete records of `wire`, up to the first
      incomplete or unacceptable one. */
  function AppPayload(wire: seq<byte>): seq<byte>
    decreases |wire|
  {
    if !StartsWithRecord(wire) then []
    else RecordData(wire) + AppPayload(wire[RecordSize(wire)..])
  }

  /** No reader can make sense of the record under way: its header is invalid, or it is complete and of
      a kind that must not occur. */
  predicate Unreadable(partial: seq<byte>) {
    |partial| >= HEADER_SIZE
    && var h := ParseHeader(partial[..HEADER_SIZE]);
       !ValidHeader(h) || (|partial| == HEADER_SIZE + h.length && !Accepted(partial[0]))
  }

  /** How many alerts there are among the complete records. */
  function Alerts(wire: seq<byte>): nat
    decreases |wire|
  {
    if !StartsWithRecord(wire) then 0
    else Alerts(wire[RecordSize(wire)..]) + if wire[0] == ALERT then 1 else 0
  }

  lemma {:induction false} AlertsAppend(a: seq<byte>, b: seq<byte>)
    requires Complete(a)
    ensures Alerts(a + b) == Alerts(a) + Alerts(b)
    decreases |a|
  {
    if a == [] {
      assert a + b == b;
    } else {
      FirstRecordStable(a, b);
      AlertsAppend(a[RecordSize(a)..], b);
    }
  }

  /** The start of a wire of complete records is readable. */
  lemma CompleteIsReadable(passed: seq<byte>, partial: seq<byte>, wire: seq<byte>)
    requires Complete(passed) && Complete(wire) && passed + partial <= wire
    ensures !Unreadable(partial)
    ensures passed + partial == wire && !StartsWithRecord(partial) ==> partial == []
  {
    hide Complete, ParseHeader;
    var rest := wire[|passed|..];
    assert wire == passed + rest && partial <= rest;
    CompleteConcat(passed, rest);
    if |partial| >= HEADER_SIZE {
      assert partial[..HEADER_SIZE] == rest[..HEADER_SIZE];
      NextRecord(rest);
    }
    if passed + partial == wire {
      assert partial == rest;
      if partial != [] {
        NextRecord(rest);
      }
    }
  }

  lemma NextRecord(wire: seq<byte>)
    requires Complete(wire) && wire != []
    ensures StartsWithRecord(wire)
  {
  }

  /** What the records before the first alert carry, and the wire behind that alert. */
  function BeforeAlert(wire: seq<byte>): seq<byte>
    decreases |wire|
  {
    if !StartsWithRecord(wire) || wire[0] == ALERT then []
    else RecordData(wire) + BeforeAlert(wire[RecordSize(wire)..])
  }

  function AfterAlert(wire: seq<byte>): seq<byte>
    decreases |wire|
  {
    if !StartsWithRecord(wire) then []
    else if wire[0] == ALERT then wire[RecordSize(wire)..]
    else AfterAlert(wire[RecordSize(wire)..])
  }

  /** Data behind an alert is carried like any other. */
  lemma {:induction false} AlertSplits(wire: seq<byte>)
    ensures AppPayload(wire) == BeforeAlert(wire) + AppPayload(AfterAlert(wire))
    decreases |wire|
  {
    hide RecordSize, ParseHeader;
    if StartsWithRecord(wire) && wire[0] != ALERT {
      var rest := wire[RecordSize(wire)..];
      AlertSplits(rest);
      assert AppPayload(wire) == RecordData(wire) + (BeforeAlert(rest) + AppPayload(AfterAlert(rest)));
    }
  }

  /** So an alert ends the stream exactly when no application data follows it. */
  lemma AlertEndsStream(wire: seq<byte>)
    ensures AppPayload(wire) == BeforeAlert(wire) <==> AppPayload(AfterAlert(wire)) == []
  {
    AlertSplits(wire);
  }

  /** A close alert with one record behind it: nothing precedes the alert, yet the byte is carried. */
  lemma DataAfterAlert(x: byte)
    ensures var wire := [ALERT, 3, 3, 0, 2, 1, 0] + BuildRecord([x]);
            BeforeAlert(wire) == [] && AppPayload(wire) == [x]
  {
    var alert: seq<byte> := [ALERT, 3, 3, 0, 2, 1, 0];
    var wire := alert + BuildRecord([x]);
    assert wire[..HEADER_SIZE] == [ALERT, 3, 3, 0, 2];
    assert ParseHeader(wire[..HEADER_SIZE]) == RecordHeader(ALERT, 3, 3, 2);
    assert RecordSize(wire) == 7 && wire[7..] == BuildRecord([x]);
    BuildRecordCarries([x]);
    AlertSplits(wire);
  }

  /** The first record does not depend on what follows it. */
  lemma FirstRecordStable(a: seq<byte>, b: seq<byte>)
    requires StartsWithRecord(a)
    ensures StartsWithRecord(a + b)
    ensures RecordSize(a + b) == RecordSize(a)
    ensures RecordData(a + b) == RecordData(a)
    ensures (a + b)[RecordSize(a)..] == a[RecordSize(a)..] + b
  {
    assert (a + b)[..HEADER_SIZE] == a[..HEADER_SIZE];
  }

  lemma AppPayloadStep(a: seq<byte>, b: seq<byte>)
    requires StartsWithRecord(a)
    ensures AppPayload(a + b) == RecordData(a) + AppPayload(a[RecordSize(a)..] + b)
  {
    FirstRecordStable(a, b);
  }

  lemma {:induction false} CompleteAppend(a: seq<byte>, b: seq<byte>)
    requires Complete(a)
    ensures AppPayload(a + b) == AppPayload(a) + AppPayload(b)
    decreases |a|
  {
    if a == [] {
      assert a + b == b;
    } else {
      CompleteAppend(a[RecordSize(a)..], b);
      AppPayloadStep(a, b);
    }
  }

  lemma {:induction false} CompleteConcat(a: seq<byte>, b: seq<byte>)
    requires Complete(a)
    ensures Complete(a + b) == Complete(b)
    decreases |a|
  {
    if a == [] {
      assert a + b == b;
    } else {
      FirstRecordStable(a, b);
      CompleteConcat(a[RecordSize(a)..], b);
    }
  }

  /** More wire never changes what earlier wire carried. */
  lemma {:induction false} AppPayloadMonotone(a: seq<byte>, b: seq<byte>)
    requires a <= b
    ensures AppPayload(a) <= AppPayload(b)
    decreases |a|
  {
    if StartsWithRecord(a) {
      var n := RecordSize(a);
      assert b == a + b[|a|..];
      FirstRecordStable(a, b[|a|..]);
      AppPayloadMonotone(a[n..], b[n..]);
    }
  }

  /** A wire carries no more bytes than it has. */
  lemma {:induction false} CarriesNoMore(wire: seq<byte>)
    ensures |AppPayload(wire)| <= |wire|
    decreases |wire|
  {
    if StartsWithRecord(wire) {
      CarriesNoMore(wire[RecordSize(wire)..]);
    }
  }

  /** A record built from at most MAX_PAYLOAD bytes is one complete record carrying them. */
  lemma BuildRecordCarries(data: seq<byte>)
    requires |data| <= MAX_PAYLOAD
    ensures Complete(BuildRecord(data)) && AppPayload(BuildRecord(data)) == data
  {
    var r := BuildRecord(data);
    var h := RecordHeader(APPLICATION, 3, 3, |data|);
    assert r[..HEADER_SIZE] == HeaderBytes(h);
    HeaderRoundTrip(h);
    assert RecordSize(r) == |r|;
    assert r[|r|..] == [];
    assert r[HEADER_SIZE..|r|] == data;
  }

  /** Appending one built record appends its data to what the stream carries. */
  lemma AppendRecord(wire: seq<byte>, data: seq<byte>)
    requires Complete(wire) && |data| <= MAX_PAYLOAD
    ensures Complete(wire + BuildRecord(data))
    ensures AppPayload(wire + BuildRecord(data)) == AppPayload(wire) + data
  {
    BuildRecordCarries(data);
    CompleteAppend(wire, BuildRecord(data));
    CompleteConcat(wire, BuildRecord(data));
  }

  /** A received header and a body of the announced length complete one record. */
  lemma FinishRecord(wire: seq<byte>, head: seq<byte>, body: seq<byte>)
    requires Complete(wire) && |head| == HEADER_SIZE
    requires ValidHeader(ParseHeader(head)) && |body| == ParseHeader(head).length && Accepted(head[0])
    ensures Complete(wire + (head + body))
    ensures AppPayload(wire + (head + body))
         == AppPayload(wire) + (if head[0] == APPLICATION then body else [])
    ensures Alerts(wire + (head + body)) == Alerts(wire) + if head[0] == ALERT then 1 else 0
  {
    var record := head + body;
    assert record[..HEADER_SIZE] == head;
    assert record[|record|..] == [];
    assert record[HEADER_SIZE..|record|] == body;
    assert Alerts([]) == 0;
    CompleteAppend(wire, record);
    CompleteConcat(wire, record);
    AlertsAppend(wire, record);
  }

  /** A record under way, or one with a bad header or kind, carries nothing yet. */
  lemma PartialCarriesNothing(wire: seq<byte>, partial: seq<byte>)
    requires Complete(wire) && !StartsWithRecord(partial)
    ensures AppPayload(wire + partial) == AppPayload(wire)
  {
    CompleteAppend(wire, partial);
  }
}
