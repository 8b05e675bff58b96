/** The emulated server side of a TLS handshake (src/tls_front/emulator.rs): record sizes, the payload
    spread over the records, and the digest put into the finished response. */
module Emulator {
  import opened Bytes
  import opened Io
  import opened TlsRecord
  import opened Hello
  import opened ClientHelloBuilder
  import opened ServerHellos

  const MIN_APP_DATA: nat := 64
  /** Section 5.2 of RFC 8446. */
  const MAX_APP_DATA: nat := 16640
  /** Inner content type and authentication tag at the end of each record. */
  const TRAILER: nat := 17
  const DIGEST_POS: nat := 11
  const DIGEST_LEN: nat := 32

  function Clamp(n: int): (r: nat)
    ensures MIN_APP_DATA <= r <= MAX_APP_DATA
    ensures MIN_APP_DATA <= n <= MAX_APP_DATA ==> r == n
    ensures n < MIN_APP_DATA ==> r == MIN_APP_DATA
    ensures n > MAX_APP_DATA ==> r == MAX_APP_DATA
  {
    if n < MIN_APP_DATA then MIN_APP_DATA else if n > MAX_APP_DATA then MAX_APP_DATA else n
  }

  predicate InBounds(sizes: seq<nat>) {
    forall i :: 0 <= i < |sizes| ==> MIN_APP_DATA <= sizes[i] <= MAX_APP_DATA
  }

  /** Three per cent, rounded half up. */
  function JitterRange(base: nat): nat {
    (base as real * 0.03 + 0.5).Floor
  }

  /** The nearest whole number to three per cent. */
  lemma JitterRangeRounds(base: nat)
    ensures 100 * JitterRange(base) - 50 <= 3 * base < 100 * JitterRange(base) + 50
  {
    var x := base as real * 0.03 + 0.5;
    assert x.Floor as real <= x < x.Floor as real + 1.0;
  }

  /** Every size within the jitter and the record bounds is drawn by some draw. */
  lemma JitterReaches(size: nat, target: nat)
    requires MIN_APP_DATA <= target <= MAX_APP_DATA
    requires Clamp(size) - JitterRange(Clamp(size)) <= target <= Clamp(size) + JitterRange(Clamp(size))
    ensures var draw: int := target - Clamp(size) + JitterRange(Clamp(size));
            0 <= draw < 0x1_0000 && Jittered(size, draw) == target
  {
    hide JitterRange;
    var base, range := Clamp(size), JitterRange(Clamp(size));
    JitterRangeRounds(base);
    assert range < 1000;
    var draw: int := target - base + range;
    SmallRemainder(draw, 2 * range + 1);
    assert base + draw % (2 * range + 1) - range == target;
  }

  lemma SmallRemainder(d: nat, m: nat)
    requires d < m
    ensures d % m == d
  {
  }

  /** Within the record bounds and within the jitter of the clamped value. */
  function Jittered(size: nat, draw: nat): (r: nat)
    ensures MIN_APP_DATA <= r <= MAX_APP_DATA
    ensures Clamp(size) - JitterRange(Clamp(size)) <= r <= Clamp(size) + JitterRange(Clamp(size))
  {
    var base := Clamp(size);
    var range := JitterRange(base);
    if range == 0 then base else Clamp(base + draw % (2 * range + 1) - range)
  }

  /** One draw of sixteen random bits for each size. */
  function JitterAndClamp(sizes: seq<nat>, draws: nat -> nat): (r: seq<nat>)
    ensures |r| == |sizes| && InBounds(r)
  {
    if sizes == [] then []
    else
      var n := |sizes| - 1;
      JitterAndClamp(sizes[..n], draws) + [Jittered(sizes[n], draws(n) % 0x1_0000)]
  }

  lemma {:induction false} JitterAt(sizes: seq<nat>, draws: nat -> nat, i: nat)
    requires i < |sizes|
    ensures JitterAndClamp(sizes, draws)[i] == Jittered(sizes[i], draws(i) % 0x1_0000)
  {
    var n := |sizes| - 1;
    if i < n {
      JitterAt(sizes[..n], draws, i);
    }
  }

  function Room(size: nat): nat {
    if size > TRAILER then size - TRAILER else 0
  }

  /** Payload bytes that records of these sizes hold. */
  function Capacity(sizes: seq<nat>): nat {
    if sizes == [] then 0 else Capacity(sizes[..|sizes| - 1]) + Room(sizes[|sizes| - 1])
  }

  lemma CapacitySnoc(sizes: seq<nat>, size: nat)
    ensures Capacity(sizes + [size]) == Capacity(sizes) + Room(size)
  {
    assert (sizes + [size])[..|sizes|] == sizes;
  }

  /** How far the records added for `n` more bytes go beyond them. */
  function Overshoot(n: nat): nat {
    if n == 0 then 0
    else
      var room := Room(Clamp(n + TRAILER));
      if room >= n then room - n else Overshoot(n - room)
  }

  /** When the payload fits in the end. Growing a last record that is shorter than its trailer counts
      bytes that hold no payload; only what the added records overshoot can make up for them. */
  predicate Suffices(sizes: seq<nat>, payloadLen: nat) {
    || Capacity(sizes) >= payloadLen || sizes == []
    || var last := sizes[|sizes| - 1];
       || last >= TRAILER
       || var missing := payloadLen - Capacity(sizes) - (MAX_APP_DATA - last);
          missing > 0 && last + Overshoot(missing) >= TRAILER
  }

  /** A record of no bytes at all, grown to five, still holds nothing. */
  lemma ShortLastRecord()
    ensures !Suffices([0], 5)
  {
    assert [0][..0] == [];
  }

  /** Grows the last record, then adds records, until the payload fits: sizes stay within bounds,
      nothing is changed needlessly and never by more than the smallest record overshoots. */
  method EnsurePayloadCapacity(sizes: seq<nat>, payloadLen: nat) returns (r: seq<nat>)
    ensures InBounds(sizes) ==> InBounds(r)
    ensures Capacity(r) >= payloadLen <==> Suffices(sizes, payloadLen)
    ensures Capacity(sizes) >= payloadLen ==> r == sizes
    ensures Capacity(sizes) < payloadLen && InBounds(sizes) ==> Capacity(r) < payloadLen + MIN_APP_DATA - TRAILER
    ensures |r| >= |sizes|
    ensures |sizes| > 0 ==> r[..|sizes| - 1] == sizes[..|sizes| - 1] && r[|sizes| - 1] >= sizes[|sizes| - 1]
  {
    hide Capacity, Overshoot;
    r := sizes;
    if payloadLen == 0 {
      return;
    }
    var total := Capacity(sizes);
    if total >= payloadLen {
      return;
    }
    if |sizes| > 0 {
      var grow;
      r, grow := GrowLast(sizes, payloadLen - total);
      total := total + grow;
    }
    ghost var grown := r;
    if total < payloadLen {
      SmallOvershoot(payloadLen - total);
    }
    r := AddRecords(r, total, payloadLen);
    FitsExactly(sizes, payloadLen, Capacity(r));
    assert r[..|sizes|] == grown;
    assert |sizes| > 0 ==> r[..|sizes| - 1] == grown[..|sizes| - 1];
  }

  function Free(size: nat): nat {
    if size < MAX_APP_DATA then MAX_APP_DATA - size else 0
  }

  method GrowLast(sizes: seq<nat>, missing: nat) returns (r: seq<nat>, grow: nat)
    requires sizes != []
    ensures |r| == |sizes| && r[..|sizes| - 1] == sizes[..|sizes| - 1]
    ensures var last := sizes[|sizes| - 1];
            && grow == Min(Free(last), missing) && r[|sizes| - 1] == last + grow
            && Capacity(r) == Capacity(sizes) - Room(last) + Room(last + grow)
    ensures InBounds(sizes) ==> InBounds(r)
  {
    hide Capacity;
    var front, last := sizes[..|sizes| - 1], sizes[|sizes| - 1];
    assert sizes == front + [last];
    CapacitySnoc(front, last);
    grow := Min(if last < MAX_APP_DATA then MAX_APP_DATA - last else 0, missing);
    CapacitySnoc(front, last + grow);
    r := front + [last + grow];
  }

  /** What the capacity comes to, and when it is enough. */
  lemma FitsExactly(sizes: seq<nat>, payloadLen: nat, final: nat)
    requires Capacity(sizes) < payloadLen
    requires var missing := payloadLen - Capacity(sizes);
             var last := if sizes == [] then 0 else sizes[|sizes| - 1];
             var grow := if sizes == [] then 0 else Min(Free(last), missing);
             final == Capacity(sizes) - Room(last) + Room(last + grow)
                      + if grow < missing then missing - grow + Overshoot(missing - grow) else 0
    ensures final >= payloadLen <==> Suffices(sizes, payloadLen)
    ensures InBounds(sizes) ==> final < payloadLen + MIN_APP_DATA - TRAILER
  {
    hide Capacity, Overshoot;
    var missing := payloadLen - Capacity(sizes);
    var last := if sizes == [] then 0 else sizes[|sizes| - 1];
    var grow := if sizes == [] then 0 else Min(Free(last), missing);
    if grow < missing {
      SmallOvershoot(missing - grow);
    }
  }

  /** Adds records until `total` has grown to the payload's length. */
  method AddRecords(sizes: seq<nat>, total: nat, payloadLen: nat) returns (r: seq<nat>)
    ensures sizes <= r && (InBounds(sizes) ==> InBounds(r))
    ensures Capacity(r) == Capacity(sizes)
                           + if total < payloadLen then payloadLen - total + Overshoot(payloadLen - total) else 0
  {
    r := sizes;
    var sum := total;
    ghost var over := if total < payloadLen then Overshoot(payloadLen - total) else 0;
    while sum < payloadLen
      invariant sizes <= r && (InBounds(sizes) ==> InBounds(r))
      invariant Capacity(r) == Capacity(sizes) + (sum - total)
      invariant if sum < payloadLen then Overshoot(payloadLen - sum) == over
                else sum == if total < payloadLen then payloadLen + over else total
      decreases payloadLen - sum
    {
      var chunk := Clamp(payloadLen - sum + TRAILER);
      CapacitySnoc(r, chunk);
      r := r + [chunk];
      sum := sum + Room(chunk);
    }
  }

  lemma {:induction false} SmallOvershoot(n: nat)
    ensures Overshoot(n) < MIN_APP_DATA - TRAILER
  {
    if n > 0 && Room(Clamp(n + TRAILER)) < n {
      SmallOvershoot(n - Room(Clamp(n + TRAILER)));
    }
  }

  /** What a client reads from the records: each body without its trailer. */
  function Inner(wire: seq<byte>): seq<byte>
    decreases |wire|
  {
    if !StartsWithRecord(wire) then []
    else RecordData(wire)[..Room(|RecordData(wire)|)] + Inner(wire[RecordSize(wire)..])
  }

  /** The lengths of the data records. */
  function Lengths(wire: seq<byte>): seq<nat>
    decreases |wire|
  {
    if !StartsWithRecord(wire) then []
    else FirstLength(wire) + Lengths(wire[RecordSize(wire)..])
  }

  function FirstLength(wire: seq<byte>): seq<nat>
    requires StartsWithRecord(wire)
  {
    if wire[0] == APPLICATION then [|RecordData(wire)|] else []
  }

  lemma FirstLengthStable(a: seq<byte>, b: seq<byte>)
    requires StartsWithRecord(a)
    ensures StartsWithRecord(a + b) && FirstLength(a + b) == FirstLength(a)
  {
    FirstRecordStable(a, b);
  }

  lemma {:induction false} InnerAppend(a: seq<byte>, b: seq<byte>)
    requires Complete(a)
    ensures Inner(a + b) == Inner(a) + Inner(b)
    decreases |a|
  {
    hide StartsWithRecord, RecordSize, RecordData;
    if a == [] {
      assert a + b == b;
      EmptyHoldsNothing();
      assert [] + Inner(b) == Inner(b);
    } else {
      FirstRecordStable(a, b);
      InnerAppend(a[RecordSize(a)..], b);
    }
  }

  lemma {:induction false} LengthsAppend(a: seq<byte>, b: seq<byte>)
    requires Complete(a)
    ensures Lengths(a + b) == Lengths(a) + Lengths(b)
    decreases |a|
  {
    hide StartsWithRecord, RecordSize, FirstLength;
    if a == [] {
      assert a + b == b;
      EmptyHoldsNothing();
      assert [] + Lengths(b) == Lengths(b);
    } else {
      FirstRecordStable(a, b);
      FirstLengthStable(a, b);
      LengthsAppend(a[RecordSize(a)..], b);
    }
  }

  lemma EmptyHoldsNothing()
    ensures Complete([]) && Inner([]) == [] && Lengths([]) == [] && Capacity([]) == 0
  {
  }

  lemma InnerOfRecord(data: seq<byte>)
    requires |data| <= MAX_PAYLOAD
    ensures Complete(BuildRecord(data)) && Inner(BuildRecord(data)) == data[..Room(|data|)]
    ensures Lengths(BuildRecord(data)) == [|data|]
  {
    var r := BuildRecord(data);
    var h := RecordHeader(APPLICATION, 3, 3, |data|);
    BuildRecordCarries(data);
    assert r[..HEADER_SIZE] == HeaderBytes(h);
    HeaderRoundTrip(h);
    assert RecordSize(r) == |r|;
    assert r[|r|..] == [];
    assert RecordData(r) == data;
    EmptyHoldsNothing();
  }

  /** Random bytes drawn for record `i`, from draw `from` on. */
  function Noise(noise: (nat, nat) -> byte, i: nat, from: nat, n: nat): (r: seq<byte>)
    ensures |r| == n
  {
    seq(n, j requires 0 <= j < n => noise(i, from + j))
  }

  /** One record body: payload from `offset`, filler, type marker, tag. */
  method RecordBody(size: nat, payload: Option<seq<byte>>, offset: nat, noise: (nat, nat) -> byte, i: nat)
    returns (body: seq<byte>, next: nat)
    requires offset <= |Selected(payload)|
    ensures |body| == size && next == Min(|Selected(payload)|, offset + Room(size))
    ensures size > TRAILER ==>
              body == Selected(payload)[offset..next] + Noise(noise, i, 0, Room(size) - (next - offset))
                      + [HANDSHAKE] + Noise(noise, i, Room(size), 16)
    ensures size <= TRAILER ==> body == Noise(noise, i, 0, size)
  {
    hide Noise;
    next := offset;
    body := [];
    if payload.Some? {
      if size > TRAILER {
        var bodyLen := size - TRAILER;
        var remaining := |payload.value| - offset;
        var copyLen := Min(remaining, bodyLen);
        if copyLen > 0 {
          body := body + payload.value[offset..offset + copyLen];
          next := offset + copyLen;
        }
        if bodyLen > copyLen {
          body := body + Noise(noise, i, 0, bodyLen - copyLen);
        }
        body := body + [HANDSHAKE];
        body := body + Noise(noise, i, bodyLen, 16);
      } else {
        body := body + Noise(noise, i, 0, size);
      }
    } else if size > TRAILER {
      var bodyLen := size - TRAILER;
      body := body + Noise(noise, i, 0, bodyLen);
      body := body + [HANDSHAKE];
      body := body + Noise(noise, i, bodyLen, 16);
    } else {
      body := body + Noise(noise, i, 0, size);
    }
  }

  function Selected(payload: Option<seq<byte>>): seq<byte> {
    if payload.Some? then payload.value else []
  }

  /** The records carry the payload in order, then filler, and fill exactly the capacity. */
  method BuildAppData(sizes: seq<nat>, payload: Option<seq<byte>>, noise: (nat, nat) -> byte)
    returns (app: seq<byte>)
    requires forall i :: 0 <= i < |sizes| ==> sizes[i] <= MAX_APP_DATA
    ensures Complete(app) && |Inner(app)| == Capacity(sizes) && Lengths(app) == sizes
    ensures var n := Min(Capacity(sizes), |Selected(payload)|); Inner(app)[..n] == Selected(payload)[..n]
  {
    hide Holds;
    app := [];
    var offset: nat := 0;
    NothingHeld(Selected(payload));
    ghost var done: seq<nat> := [];
    for i := 0 to |sizes|
      invariant done == sizes[..i] && Holds(app, done, Selected(payload), offset)
      invariant offset <= |Selected(payload)|
    {
      app, offset := AppendNext(app, done, sizes[i], payload, offset, noise, i);
      done := done + [sizes[i]];
    }
    assert done == sizes;
    HeldAtEnd(app, sizes, Selected(payload), offset);
  }

  /** The records so far have the sizes `done` and carry the payload up to `offset`, as far as they can. */
  ghost predicate Holds(app: seq<byte>, done: seq<nat>, payload: seq<byte>, offset: nat) {
    && Complete(app) && |Inner(app)| == Capacity(done) && Lengths(app) == done
    && offset == Min(Capacity(done), |payload|) && Inner(app)[..offset] == payload[..offset]
  }

  lemma NothingHeld(payload: seq<byte>)
    ensures Holds([], [], payload, 0)
  {
    EmptyHoldsNothing();
  }

  lemma HeldAtEnd(app: seq<byte>, sizes: seq<nat>, payload: seq<byte>, offset: nat)
    requires Holds(app, sizes, payload, offset)
    ensures Complete(app) && |Inner(app)| == Capacity(sizes) && Lengths(app) == sizes
    ensures var n := Min(Capacity(sizes), |payload|); Inner(app)[..n] == payload[..n]
  {
  }

  /** One more record. */
  method AppendNext(app: seq<byte>, ghost done: seq<nat>, size: nat, payload: Option<seq<byte>>, offset: nat,
                    noise: (nat, nat) -> byte, i: nat)
    returns (longer: seq<byte>, next: nat)
    requires Holds(app, done, Selected(payload), offset) && offset <= |Selected(payload)| && size <= MAX_APP_DATA
    ensures next <= |Selected(payload)| && Holds(longer, done + [size], Selected(payload), next)
  {
    hide Complete, Inner, Lengths, Capacity, BuildRecord, Noise;
    var body;
    body, next := RecordBody(size, payload, offset, noise, i);
    AppendBody(app, body);
    CapacitySnoc(done, size);
    ghost var piece := body[..Room(size)];
    ghost var copied := Selected(payload)[offset..next];
    assert copied <= body && |copied| <= Room(size);
    assert piece[..next - offset] == body[..|copied|] == copied;
    Extended(Inner(app), piece, Selected(payload), offset, next);
    longer := app + BuildRecord(body);
  }

  lemma AppendBody(app: seq<byte>, body: seq<byte>)
    requires Complete(app) && |body| <= MAX_APP_DATA
    ensures Complete(app + BuildRecord(body))
    ensures Inner(app + BuildRecord(body)) == Inner(app) + body[..Room(|body|)]
    ensures Lengths(app + BuildRecord(body)) == Lengths(app) + [|body|]
  {
    hide Complete, Inner, Lengths, BuildRecord;
    InnerOfRecord(body);
    InnerAppend(app, BuildRecord(body));
    LengthsAppend(app, BuildRecord(body));
    CompleteConcat(app, BuildRecord(body));
  }

  /** A prefix of the payload stays one when the next piece of it is appended. */
  lemma Extended(before: seq<byte>, piece: seq<byte>, payload: seq<byte>, offset: nat, next: nat)
    requires offset == Min(|before|, |payload|) && next == Min(|before| + |piece|, |payload|)
    requires before[..offset] == payload[..offset]
    requires piece[..next - offset] == payload[offset..next]
    ensures (before + piece)[..next] == payload[..next]
  {
    if offset < |before| {
      assert next == offset;
      assert (before + piece)[..next] == before[..offset];
    } else {
      assert (before + piece)[..next] == before + piece[..next - offset];
      assert payload[..next] == payload[..offset] + payload[offset..next];
    }
  }

  /** One record of plain noise for each ticket. */
  method BuildTickets(lengths: seq<nat>, noise: (nat, nat) -> byte) returns (tickets: seq<byte>)
    requires forall i :: 0 <= i < |lengths| ==> 48 <= lengths[i] < 96
    ensures Complete(tickets) && Lengths(tickets) == lengths
  {
    hide Complete, Inner, Lengths, BuildRecord;
    tickets := [];
    EmptyHoldsNothing();
    assert lengths[..0] == [];
    for i := 0 to |lengths|
      invariant Complete(tickets) && Lengths(tickets) == lengths[..i]
    {
      var data := Noise(noise, i, 0, lengths[i]);
      AppendBody(tickets, data);
      assert lengths[..i] + [lengths[i]] == lengths[..i + 1];
      tickets := tickets + BuildRecord(data);
    }
    assert lengths[..|lengths|] == lengths;
  }

  // ---- The whole response ----

  function KeyShare(key: seq<byte>): Item {
    Item(0x33, Be16(0x1d) + Be16(32) + key)
  }

  const SUPPORTED_VERSIONS: Item := Item(0x2b, Be16(0x0304))

  /** The selected protocol as an extension; its length fields are cut to their widths. */
  function AlpnBytes(proto: seq<byte>): seq<byte> {
    Be16(0x10) + Low16(3 + |proto|) + Low16(1 + |proto|) + [|proto| % 256] + proto
  }

  function SelectedAlpn(proto: seq<byte>): Item
    requires |proto| < 256
  {
    Item(0x10, Be16(1 + |proto|) + [|proto|] + proto)
  }

  lemma AlpnIsItem(proto: seq<byte>)
    requires |proto| < 256
    ensures Fits(Extensions, SelectedAlpn(proto)) && AlpnBytes(proto) == ItemBytes(Extensions, SelectedAlpn(proto))
  {
    hide Be16;
  }

  function ServerExtensions(key: seq<byte>, alpn: Option<seq<byte>>): seq<Item>
    requires alpn.Some? ==> |alpn.value| < 256
  {
    [KeyShare(key), SUPPORTED_VERSIONS] + if alpn.None? then [] else [SelectedAlpn(alpn.value)]
  }

  method BuildServerExtensions(key: seq<byte>, alpn: Option<seq<byte>>) returns (exts: seq<byte>)
    requires |key| == 32
    ensures |exts| == 46 + if alpn.None? then 0 else 7 + |alpn.value|
    ensures alpn.None? || |alpn.value| < 256 ==>
              && AllFit(Extensions, ServerExtensions(key, alpn))
              && exts == ListBytes(Extensions, ServerExtensions(key, alpn))
  {
    ghost var items := [];
    exts := [];
    assert exts == ListBytes(Extensions, items);
    hide ListBytes, Be16, ItemBytes;
    exts, items := AppendExtension(exts, 0x33, Be16(0x1d) + Be16(32) + key, items);
    exts, items := AppendExtension(exts, 0x2b, Be16(0x0304), items);
    assert items == [KeyShare(key), SUPPORTED_VERSIONS];
    if alpn.Some? {
      if |alpn.value| < 256 {
        AlpnIsItem(alpn.value);
        ListSnoc(Extensions, items, SelectedAlpn(alpn.value));
      }
      exts := exts + AlpnBytes(alpn.value);
    } else {
      assert items + [] == items;
    }
  }

  type Hmac = f: seq<byte> -> seq<byte> | forall m :: |f(m)| == 32 witness (m => Zeros(32))

  function Overwrite(s: seq<byte>, digest: seq<byte>): (r: seq<byte>)
    requires |s| >= DIGEST_POS + DIGEST_LEN && |digest| == DIGEST_LEN
    ensures |r| == |s|
  {
    s[..DIGEST_POS] + digest + s[DIGEST_POS + DIGEST_LEN..]
  }

  /** A finished response authenticates itself: with its digest zeroed out again it is what the
      digest was computed over, behind the client's digest. */
  predicate Sealed(hmac: Hmac, clientDigest: seq<byte>, response: seq<byte>) {
    && |response| >= DIGEST_POS + DIGEST_LEN
    && response[DIGEST_POS..DIGEST_POS + DIGEST_LEN] == hmac(clientDigest + Overwrite(response, Zeros(DIGEST_LEN)))
  }

  datatype Template = Template(version: seq<byte>, suite: seq<byte>, compression: byte)

  function SuiteOf(t: Template): (r: seq<byte>)
    ensures t.suite != [0, 0] ==> r == t.suite
    ensures t.suite == [0, 0] ==> r == [0x13, 0x01]
  {
    if t.suite == [0, 0] then [0x13, 0x01] else t.suite
  }

  const CHANGE_CIPHER_SPEC: seq<byte> := [CHANGE_CIPHER, 3, 3, 0, 1, 1]

  function HandshakeHeader(len: nat): seq<byte> {
    HeaderBytes(RecordHeader(HANDSHAKE, 3, 3, len))
  }

  /** The response around its random field; the message is the same length whatever that holds. */
  function Around(t: Template, session: seq<byte>, exts: seq<byte>, rest: seq<byte>): (r: (seq<byte>, seq<byte>))
    requires |t.version| == 2 && |t.suite| == 2
    ensures |r.0| == DIGEST_POS
  {
    var n := 44 + |session| + |exts|;
    (HandshakeHeader(n) + [0x02] + Be24(n - 4) + t.version,
     [|session| % 256] + session + SuiteOf(t) + [t.compression] + Low16(|exts|) + exts + rest)
  }

  lemma ResponseAround(t: Template, random: seq<byte>, session: seq<byte>, exts: seq<byte>, rest: seq<byte>)
    requires |t.version| == 2 && |t.suite| == 2 && |random| == DIGEST_LEN
    ensures var (pre, post) := Around(t, session, exts, rest);
            var message := BuildMessage(t.version, random, session, SuiteOf(t), t.compression, exts);
            HandshakeHeader(|message|) + message + rest == pre + random + post
  {
    hide Low16, Be24, HeaderBytes;
  }

  lemma OverwriteAround(pre: seq<byte>, prior: seq<byte>, digest: seq<byte>, post: seq<byte>)
    requires |pre| == DIGEST_POS && |prior| == |digest| == DIGEST_LEN
    ensures Overwrite(pre + prior + post, digest) == pre + digest + post
    ensures (pre + digest + post)[DIGEST_POS..DIGEST_POS + DIGEST_LEN] == digest
  {
  }

  /** Computes the digest over the finished response and writes it into the random field. */
  method Seal(hmac: Hmac, clientDigest: seq<byte>, t: Template, session: seq<byte>, exts: seq<byte>, rest: seq<byte>)
    returns (response: seq<byte>, digest: seq<byte>)
    requires |t.version| == 2 && |t.suite| == 2
    ensures |digest| == DIGEST_LEN && Sealed(hmac, clientDigest, response)
    ensures var message := BuildMessage(t.version, digest, session, SuiteOf(t), t.compression, exts);
            response == HandshakeHeader(|message|) + message + rest
  {
    hide BuildMessage, HandshakeHeader, SuiteOf;
    var message := BuildMessage(t.version, Zeros(32), session, SuiteOf(t), t.compression, exts);
    response := HandshakeHeader(|message|) + message;
    response := response + rest;
    ghost var (pre, post) := Around(t, session, exts, rest);
    ResponseAround(t, Zeros(32), session, exts, rest);
    var input := clientDigest + response;
    digest := hmac(input);
    OverwriteAround(pre, Zeros(32), digest, post);
    OverwriteAround(pre, digest, Zeros(32), post);
    ResponseAround(t, digest, session, exts, rest);
    response := Overwrite(response, digest);
  }

  /** `len` is the cached size `size`, clamped and jittered. */
  predicate Near(size: nat, len: nat) {
    && MIN_APP_DATA <= len <= MAX_APP_DATA
    && Clamp(size) - JitterRange(Clamp(size)) <= len <= Clamp(size) + JitterRange(Clamp(size))
  }

  /** The sizes to imitate: the cached records, or one record of at least 1024 bytes. */
  function Imitated(cachedSizes: seq<nat>, totalLen: nat): (r: seq<nat>)
    ensures r != []
  {
    if cachedSizes == [] then [if totalLen > 1024 then totalLen else 1024] else cachedSizes
  }

  /** The records are the imitated ones, jittered; only the last may be longer, and only for a payload
      that would not fit may there be more. */
  predicate Shaped(imitated: seq<nat>, payload: Option<seq<byte>>, lens: seq<nat>)
    requires imitated != []
  {
    var last := |imitated| - 1;
    && |lens| >= |imitated| && InBounds(lens)
    && (forall i :: 0 <= i < last ==> Near(imitated[i], lens[i]))
    && lens[last] >= Clamp(imitated[last]) - JitterRange(Clamp(imitated[last]))
    && (payload.None? ==> |lens| == |imitated| && Near(imitated[last], lens[last]))
    && (payload.Some? && (|lens| > |imitated| || !Near(imitated[last], lens[last])) ==>
          Capacity(lens[..last]) < |payload.value|)
  }

  /** The data records, sized after the cached server's and enlarged until the payload fits. */
  method BuildRecords(cachedSizes: seq<nat>, totalLen: nat, payload: Option<seq<byte>>,
                      draws: nat -> nat, noise: (nat, nat) -> byte) returns (app: seq<byte>)
    ensures Complete(app) && Selected(payload) <= Inner(app)
    ensures Shaped(Imitated(cachedSizes, totalLen), payload, Lengths(app))
  {
    hide Complete, Inner, Lengths, Capacity, JitterAndClamp, Jittered, JitterRange, Clamp;
    var sizes := cachedSizes;
    if |sizes| == 0 {
      sizes := [if totalLen > 1024 then totalLen else 1024];
    }
    ghost var imitated := sizes;
    sizes := JitterAndClamp(sizes, draws);
    ghost var jittered := sizes;
    forall i | 0 <= i < |imitated|
      ensures Near(imitated[i], jittered[i])
    {
      JitterAt(imitated, draws, i);
    }
    if payload.Some? {
      sizes := EnsurePayloadCapacity(sizes, |payload.value|);
      KeepsFront(jittered, sizes, |payload.value|);
    }
    app := BuildAppData(sizes, payload, noise);
  }

  /** Growing the last size or adding others means that the first ones do not hold the payload. */
  lemma KeepsFront(before: seq<nat>, after: seq<nat>, payloadLen: nat)
    requires before != [] && |after| >= |before|
    requires after[..|before| - 1] == before[..|before| - 1]
    requires Capacity(before) >= payloadLen ==> after == before
    ensures after != before ==> Capacity(after[..|before| - 1]) < payloadLen
  {
  }

  /** The response is sealed; its first record holds a ServerHello that parses back to the cached
      template with the digest as its random; the records behind it carry the whole payload, then filler. */
  method BuildEmulatedServerHello(hmac: Hmac, clientDigest: seq<byte>, session: seq<byte>, t: Template,
                                  cachedSizes: seq<nat>, totalLen: nat, payload: Option<seq<byte>>,
                                  key: seq<byte>, alpn: Option<seq<byte>>, ticketLengths: seq<nat>,
                                  draws: nat -> nat, noise: (nat, nat) -> byte, ticketNoise: (nat, nat) -> byte)
    returns (response: seq<byte>, digest: seq<byte>, message: seq<byte>, rest: seq<byte>)
    requires |t.version| == 2 && |t.suite| == 2 && |key| == 32
    requires forall i :: 0 <= i < |ticketLengths| ==> 48 <= ticketLengths[i] < 96
    ensures Sealed(hmac, clientDigest, response)
    ensures response == HandshakeHeader(|message|) + message + rest
    ensures |session| < 256 && (alpn.None? || |alpn.value| < 256) ==>
              Parsed(message) == Some(ServerHello(t.version, digest, session, SuiteOf(t), t.compression,
                                                  ServerExtensions(key, alpn)))
    ensures Complete(rest) && Selected(payload) <= Inner(rest)
    ensures exists lens :: Shaped(Imitated(cachedSizes, totalLen), payload, lens)
                           && Lengths(rest) == lens + ticketLengths
  {
    hide Shaped, Imitated, Lengths;
    hide Complete, Inner, Capacity, BuildMessage, Parsed, HandshakeHeader, ListBytes, SuiteOf, ServerExtensions, Sealed;
    var exts := BuildServerExtensions(key, alpn);
    var app := BuildRecords(cachedSizes, totalLen, payload, draws, noise);
    var tickets := BuildTickets(ticketLengths, ticketNoise);
    rest := CHANGE_CIPHER_SPEC + app;
    rest := rest + tickets;
    SpecThenData(app, tickets);
    response, digest := Seal(hmac, clientDigest, t, session, exts, rest);
    message := BuildMessage(t.version, digest, session, SuiteOf(t), t.compression, exts);
    if |session| < 256 && (alpn.None? || |alpn.value| < 256) {
      SealedParses(t, digest, session, key, alpn);
    }
  }

  lemma SealedParses(t: Template, digest: seq<byte>, session: seq<byte>, key: seq<byte>, alpn: Option<seq<byte>>)
    requires |t.version| == 2 && |t.suite| == 2 && |digest| == 32 && |key| == 32
    requires |session| < 256 && (alpn.None? || |alpn.value| < 256)
    requires AllFit(Extensions, ServerExtensions(key, alpn))
    requires |ListBytes(Extensions, ServerExtensions(key, alpn))| < 0x1_0000
    ensures var exts := ServerExtensions(key, alpn);
            Parsed(BuildMessage(t.version, digest, session, SuiteOf(t), t.compression, ListBytes(Extensions, exts)))
            == Some(ServerHello(t.version, digest, session, SuiteOf(t), t.compression, exts))
  {
    hide Parsed, BuildMessage, ListBytes, ServerExtensions;
    var h := ServerHello(t.version, digest, session, SuiteOf(t), t.compression, ServerExtensions(key, alpn));
    var m := BuildMessage(t.version, digest, session, SuiteOf(t), t.compression, ListBytes(Extensions, h.exts));
    ParseInvertsBuild(h, []);
    assert m + [] == m;
  }

  /** A change-cipher record in front and tickets behind leave what the data records carry in front. */
  lemma SpecThenData(app: seq<byte>, tickets: seq<byte>)
    requires Complete(app) && Complete(tickets)
    ensures Complete(CHANGE_CIPHER_SPEC + app + tickets)
    ensures Inner(app) <= Inner(CHANGE_CIPHER_SPEC + app + tickets)
    ensures Lengths(CHANGE_CIPHER_SPEC + app + tickets) == Lengths(app) + Lengths(tickets)
  {
    SpecIsEmpty();
    hide Complete, Inner, Lengths;
    var spec := CHANGE_CIPHER_SPEC;
    CompleteConcat(spec, app);
    CompleteConcat(spec + app, tickets);
    InnerAppend(spec, app);
    InnerAppend(spec + app, tickets);
    LengthsAppend(spec, app);
    LengthsAppend(spec + app, tickets);
    assert [] + Inner(app) == Inner(app) && [] + Lengths(app) == Lengths(app);
  }

  lemma SpecIsEmpty()
    ensures Complete(CHANGE_CIPHER_SPEC) && Inner(CHANGE_CIPHER_SPEC) == [] && Lengths(CHANGE_CIPHER_SPEC) == []
  {
    var spec := CHANGE_CIPHER_SPEC;
    var head := spec[..5];
    assert head == [CHANGE_CIPHER, 3, 3, 0, 1];
    assert ParseHeader(head) == RecordHeader(CHANGE_CIPHER, 3, 3, 1);
    assert RecordSize(spec) == 6 && spec[6..] == [];
    EmptyHoldsNothing();
    assert RecordData(spec) == [];
  }
}
