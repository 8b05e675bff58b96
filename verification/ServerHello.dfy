/** ServerHello messages: built by src/protocol/tls.rs and src/tls_front/emulator.rs, parsed by
    src/tls_front/fetcher.rs (section 4.1.3 of RFC 8446). */
module ServerHellos {
  import opened Bytes
  import opened Io
  import opened Hello
  import opened ClientHelloBuilder

  /** A message as the parser returns it. */
  datatype ServerHello = ServerHello(
    version: seq<byte>, random: seq<byte>, session: seq<byte>,
    suite: seq<byte>, compression: byte, exts: seq<Item>)
  {
    predicate WellFormed() {
      && |version| == 2 && |random| == 32 && |session| < 0x100 && |suite| == 2
      && AllFit(Extensions, exts) && |ListBytes(Extensions, exts)| < 0x1_0000
    }
  }

  /** The message around already encoded extensions. Length fields keep their low bits only. */
  function BuildMessage(version: seq<byte>, random: seq<byte>, session: seq<byte>,
                        suite: seq<byte>, compression: byte, extensions: seq<byte>): (m: seq<byte>)
    ensures |m| == 8 + |version| + |random| + |session| + |suite| + |extensions|
  {
    var body := version + random + [|session| % 256] + session + suite + [compression]
                + Low16(|extensions|) + extensions;
    [0x02] + Be24(|body|) + body
  }

  function FromBe24(b: seq<byte>): nat
    requires |b| == 3
  {
    var x: int, y: int, z: int := b[0], b[1], b[2];
    65536 * x + 256 * y + z
  }

  /** Extensions read while `room` bytes of the announced list are left; one that runs past the end
      of the message makes the whole parse fail. */
  function ParseExtensions(b: seq<byte>, room: int): Option<seq<Item>>
    decreases |b|
  {
    if room < 4 || |b| < 4 then Some([])
    else
      var (kind, len) := HeadOf(Extensions, b);
      if 4 + len > |b| then None
      else
        var rest := ParseExtensions(b[4 + len..], room - 4 - len);
        if rest.None? then None else Some([Item(kind, b[4..4 + len])] + rest.value)
  }

  /** What the parser makes of any byte string. */
  function Parsed(m: seq<byte>): Option<ServerHello> {
    if |m| < 39 || m[0] != 2 || FromBe24(m[1..4]) + 4 > |m| then None
    else
      var len: int := m[38];
      var p := 39 + len;
      if p + 5 > |m| then None
      else
        var room := FromBe16(m[p + 3..p + 5]);
        if p + 5 + room > |m| then None
        else
          var exts := ParseExtensions(m[p + 5..], room);
          if exts.None? then None
          else Some(ServerHello(m[4..6], m[6..38], m[39..p], m[p..p + 2], m[p + 2], exts.value))
  }

  /** Total on every byte string. */
  method ParseServerHello(m: seq<byte>) returns (r: Option<ServerHello>)
    ensures r == Parsed(m)
  {
    if |m| < 4 || m[0] != 2 {
      return None;
    }
    if FromBe24(m[1..4]) + 4 > |m| {
      return None;
    }
    var pos: nat := 4;
    if pos + 2 > |m| {
      return None;
    }
    var version := m[pos..pos + 2];
    pos := pos + 2;
    if pos + 32 > |m| {
      return None;
    }
    var random := m[pos..pos + 32];
    pos := pos + 32;
    if pos >= |m| {
      return None;
    }
    var len: nat := m[pos];
    pos := pos + 1;
    if pos + len > |m| {
      return None;
    }
    var session := m[pos..pos + len];
    pos := pos + len;
    if pos + 2 > |m| {
      return None;
    }
    var suite := m[pos..pos + 2];
    pos := pos + 2;
    if pos >= |m| {
      return None;
    }
    var compression := m[pos];
    pos := pos + 1;
    if pos + 2 > |m| {
      return None;
    }
    var room := FromBe16(m[pos..pos + 2]);
    pos := pos + 2;
    if pos + room > |m| {
      return None;
    }
    var exts := WalkExtensions(m, pos, pos + room);
    r := if exts.None? then None else Some(ServerHello(version, random, session, suite, compression, exts.value));
  }

  method WalkExtensions(m: seq<byte>, start: nat, end: nat) returns (r: Option<seq<Item>>)
    requires start <= end <= |m|
    ensures r == ParseExtensions(m[start..], end - start)
  {
    hide HeadOf;
    var pos := start;
    var exts := [];
    ghost var goal := ParseExtensions(m[start..], end - start);
    assert goal.Some? ==> exts + goal.value == goal.value;
    while pos + 4 <= end
      invariant start <= pos <= |m|
      invariant goal == Prepend(exts, ParseExtensions(m[pos..], end - pos))
    {
      ghost var here := m[pos..];
      HeadIsLocal(Extensions, here);
      assert here[..4] == m[pos..pos + 4];
      var (kind, len) := HeadOf(Extensions, m[pos..pos + 4]);
      pos := pos + 4;
      if pos + len > |m| {
        return None;
      }
      assert here[4..4 + len] == m[pos..pos + len] && here[4 + len..] == m[pos + len..];
      ghost var rest := ParseExtensions(m[pos + len..], end - pos - len);
      assert ParseExtensions(here, end - pos + 4) == Prepend([Item(kind, m[pos..pos + len])], rest);
      PrependTwice(exts, Item(kind, m[pos..pos + len]), rest);
      exts := exts + [Item(kind, m[pos..pos + len])];
      pos := pos + len;
    }
    assert exts + [] == exts;
    r := Some(exts);
  }

  function Prepend(done: seq<Item>, rest: Option<seq<Item>>): Option<seq<Item>> {
    if rest.None? then None else Some(done + rest.value)
  }

  lemma PrependTwice(done: seq<Item>, it: Item, rest: Option<seq<Item>>)
    ensures Prepend(done, Prepend([it], rest)) == Prepend(done + [it], rest)
  {
    if rest.Some? {
      assert done + ([it] + rest.value) == done + [it] + rest.value;
    }
  }

  /** A well-formed list comes back whatever follows it. */
  lemma {:induction false} ParseList(items: seq<Item>, tail: seq<byte>)
    requires AllFit(Extensions, items)
    ensures var list := ListBytes(Extensions, items);
            ParseExtensions(list + tail, |list|) == Some(items)
  {
    hide HeadOf, ItemBytes;
    if items != [] {
      var first, rest := ItemBytes(Extensions, items[0]), ListBytes(Extensions, items[1..]);
      var all := first + rest + tail;
      assert ListBytes(Extensions, items) == first + rest;
      assert all == first + (rest + tail);
      FirstItem(Extensions, items[0], rest + tail);
      assert all[|first|..] == rest + tail;
      ParseList(items[1..], tail);
      assert [items[0]] + items[1..] == items;
    }
  }

  /** The parser inverts the builder, and trailing bytes are ignored. */
  lemma ParseInvertsBuild(h: ServerHello, tail: seq<byte>)
    requires h.WellFormed()
    ensures Parsed(BuildMessage(h.version, h.random, h.session, h.suite, h.compression,
                                ListBytes(Extensions, h.exts)) + tail) == Some(h)
  {
    hide ParseExtensions, ListBytes, Be16, FromBe16, Be24, FromBe24;
    var list := ListBytes(Extensions, h.exts);
    var built := BuildMessage(h.version, h.random, h.session, h.suite, h.compression, list);
    var m := built + tail;
    var p := 39 + |h.session|;
    assert m[1..4] == Be24(|built| - 4);
    Be24Low(|built| - 4);
    assert m[4..6] == h.version && m[6..38] == h.random && m[38] == |h.session|;
    assert m[39..p] == h.session && m[p..p + 2] == h.suite && m[p + 2] == h.compression;
    assert m[p + 3..p + 5] == Be16(|list|);
    Be16RoundTrip(|list|);
    assert m[p + 5..] == list + tail;
    ParseList(h.exts, tail);
  }

  /** Three bytes keep a length modulo 2^24, high byte first. */
  lemma Be24Low(n: nat)
    ensures FromBe24(Be24(n)) == n % 0x100_0000 <= n
  {
    var high, top := n / 256, n / 256 / 256;
    assert n == 256 * high + n % 256;
    assert high == 256 * top + high % 256;
    assert top == 256 * (top / 256) + top % 256;
    assert n == 0x100_0000 * (top / 256) + (65536 * (top % 256) + 256 * (high % 256) + n % 256);
  }
}
