/** The ClientHello the proxy sends to fetch a real server's TLS metadata (src/tls_front/fetcher.rs),
    built by appending to byte vectors. */
module ClientHelloBuilder {
  import opened Bytes
  import opened Io
  import opened Hello

  const CIPHER_SUITES: seq<byte> := [0x13, 0x01, 0x13, 0x02, 0x13, 0x03, 0x00, 0x2f, 0x00, 0xff]
  const HTTP_1_1: seq<byte> := [0x68, 0x74, 0x74, 0x70, 0x2f, 0x31, 0x2e, 0x31]
  const TARGET_EXT_LEN: nat := 180

  function Zeros(n: nat): (r: seq<byte>)
    ensures |r| == n
  {
    seq(n, _ => 0)
  }

  /** The three low bytes of a length. */
  function Be24(n: nat): (r: seq<byte>)
    ensures |r| == 3
  {
    [n / 256 / 256 % 256, n / 256 % 256, n % 256]
  }

  function ServerName(sni: seq<byte>): (e: Item)
    requires |sni| < 0xfff0
    ensures e.kind == 0 && |e.data| == 5 + |sni|
  {
    ListExtension(0, ServerNames, [Item(0, sni)])
  }

  const ALPN: Item := ListExtension(0x10, Protocols, [Item(0, HTTP_1_1)])

  /** The extensions between the server name and ALPN. */
  function MiddleExtensions(key: seq<byte>): (r: seq<Item>)
    ensures forall e :: e in r ==> e.kind != 0 && e.kind != 0x10
  {
    [Item(0x0a, Be16(4) + Be16(0x1d) + Be16(0x17)),
     Item(0x0d, Be16(8) + Be16(0x0804) + Be16(0x0805) + Be16(0x0403) + Be16(0x0503)),
     Item(0x2b, [4] + Be16(0x0304) + Be16(0x0303)),
     Item(0x33, Be16(36) + (Be16(0x1d) + Be16(32) + key))]
  }

  /** Padding up to the target length, where an extension header still fits. */
  function Padding(len: nat): (r: seq<Item>)
    ensures forall e :: e in r ==> e.kind == 0x15
  {
    if len + 4 < TARGET_EXT_LEN then [Item(0x15, Zeros(TARGET_EXT_LEN - len - 4))] else []
  }

  function ExtensionsFor(sni: seq<byte>, key: seq<byte>): seq<Item>
    requires 99 + |sni| < 0x1_0000
  {
    [ServerName(sni)] + MiddleExtensions(key) + [ALPN] + Padding(99 + |sni|)
  }

  method AppendExtension(exts: seq<byte>, kind: nat, data: seq<byte>, ghost items: seq<Item>)
    returns (r: seq<byte>, ghost grown: seq<Item>)
    requires AllFit(Extensions, items) && Fits(Extensions, Item(kind, data))
    requires exts == ListBytes(Extensions, items)
    ensures grown == items + [Item(kind, data)] && AllFit(Extensions, grown)
    ensures r == ListBytes(Extensions, grown) && |r| == |exts| + 4 + |data|
  {
    hide ListBytes;
    r := exts + Be16(kind);
    r := r + Be16(|data|);
    r := r + data;
    grown := items + [Item(kind, data)];
    ListSnoc(Extensions, items, Item(kind, data));
    assert ItemBytes(Extensions, Item(kind, data)) == Be16(kind) + Be16(|data|) + data;
  }

  lemma {:induction false} ListSnoc(f: Format, items: seq<Item>, it: Item)
    requires AllFit(f, items) && Fits(f, it)
    ensures AllFit(f, items + [it])
    ensures ListBytes(f, items + [it]) == ListBytes(f, items) + ItemBytes(f, it)
  {
    hide ItemBytes;
    if items == [] {
      assert items + [it] == [it];
      assert [it][1..] == [];
      assert ListBytes(f, [it]) == ItemBytes(f, it) + ListBytes(f, []);
    } else {
      assert (items + [it])[1..] == items[1..] + [it];
      ListSnoc(f, items[1..], it);
    }
  }

  /** The server_name extension as it is appended; its three length fields keep sixteen bits. */
  function NameBytes(sni: seq<byte>): (r: seq<byte>)
    ensures |r| == 9 + |sni|
  {
    Be16(0) + Low16(5 + |sni|) + (Low16(3 + |sni|) + [0] + Low16(|sni|) + sni)
  }

  /** The extensions behind the server name. */
  function RestFor(sni: seq<byte>, key: seq<byte>): seq<Item> {
    MiddleExtensions(key) + [ALPN] + Padding(99 + |sni|)
  }

  method BuildName(sni: seq<byte>) returns (name: seq<byte>)
    ensures name == NameBytes(sni)
  {
    hide Be16, Low16;
    var data := Low16(3 + |sni|);
    data := data + [0];
    data := data + Low16(|sni|);
    data := data + sni;
    name := Be16(0) + Low16(|data|);
    name := name + data;
  }

  /** How long the extensions are for a name of `n` bytes. */
  function ExtensionsLen(n: nat): nat {
    if 103 + n < TARGET_EXT_LEN then TARGET_EXT_LEN else 99 + n
  }

  method BuildMiddle(key: seq<byte>) returns (exts: seq<byte>, ghost items: seq<Item>)
    requires |key| == 32
    ensures items == MiddleExtensions(key) && AllFit(Extensions, items)
    ensures exts == ListBytes(Extensions, items) && |exts| == 75
  {
    items := [];
    exts := [];
    assert exts == ListBytes(Extensions, items);
    hide ListBytes, Be16;
    exts, items := AppendExtension(exts, 0x0a, Be16(4) + Be16(0x1d) + Be16(0x17), items);
    var algorithms := Be16(8) + Be16(0x0804) + Be16(0x0805) + Be16(0x0403) + Be16(0x0503);
    exts, items := AppendExtension(exts, 0x0d, algorithms, items);
    exts, items := AppendExtension(exts, 0x2b, [4] + Be16(0x0304) + Be16(0x0303), items);
    exts, items := AppendExtension(exts, 0x33, Be16(36) + (Be16(0x1d) + Be16(32) + key), items);
  }

  /** Appends the extensions behind a server_name extension of `nameLen` bytes. */
  method BuildRest(nameLen: nat, key: seq<byte>) returns (rest: seq<byte>, ghost items: seq<Item>)
    requires |key| == 32 && nameLen >= 9
    ensures items == MiddleExtensions(key) + [ALPN] + Padding(90 + nameLen)
    ensures AllFit(Extensions, items) && rest == ListBytes(Extensions, items)
    ensures nameLen + |rest| == ExtensionsLen(nameLen - 9)
  {
    hide ListBytes, Be16, ListExtension, MiddleExtensions;
    rest, items := BuildMiddle(key);
    SingleProtocol();
    rest, items := AppendExtension(rest, 0x10, Be16(9) + [8] + HTTP_1_1, items);
    var len := nameLen + |rest|;
    if len < TARGET_EXT_LEN {
      var remaining := TARGET_EXT_LEN - len;
      if remaining > 4 {
        rest, items := AppendExtension(rest, 0x15, Zeros(remaining - 4), items);
      }
    }
  }

  method BuildExtensions(sni: seq<byte>, key: seq<byte>) returns (exts: seq<byte>)
    requires |key| == 32
    ensures AllFit(Extensions, RestFor(sni, key))
    ensures exts == NameBytes(sni) + ListBytes(Extensions, RestFor(sni, key)) && |exts| == ExtensionsLen(|sni|)
  {
    hide ListBytes, NameBytes, MiddleExtensions, Padding;
    var name := BuildName(sni);
    var rest, items := BuildRest(|name|, key);
    exts := name + rest;
  }

  lemma FullLength(n: nat)
    requires n < 0x1_0000
    ensures Low16(n) == Be16(n)
  {
    hide Be16;
    assert n % 0x1_0000 == n;
  }

  lemma NameIsItem(sni: seq<byte>)
    requires 99 + |sni| < 0x1_0000
    ensures Fits(Extensions, ServerName(sni)) && ItemBytes(Extensions, ServerName(sni)) == NameBytes(sni)
  {
    hide Be16, Low16, ListBytes, ServerName;
    SingleName(sni);
    FullLength(5 + |sni|);
    FullLength(3 + |sni|);
    FullLength(|sni|);
    var data := ServerName(sni).data;
    assert data == Low16(3 + |sni|) + [0] + Low16(|sni|) + sni;
  }

  /** Within sixteen bits, that is the list of all extensions. */
  lemma NameInFront(sni: seq<byte>, key: seq<byte>)
    requires 99 + |sni| < 0x1_0000 && AllFit(Extensions, RestFor(sni, key))
    ensures AllFit(Extensions, ExtensionsFor(sni, key))
    ensures ListBytes(Extensions, ExtensionsFor(sni, key)) == NameBytes(sni) + ListBytes(Extensions, RestFor(sni, key))
  {
    hide Be16, MiddleExtensions, Padding, NameBytes, ItemBytes, ServerName, Low16;
    var all := ExtensionsFor(sni, key);
    NameIsItem(sni);
    assert all == [ServerName(sni)] + RestFor(sni, key);
    assert all[0] == ServerName(sni) && all[1..] == RestFor(sni, key);
  }

  lemma SingleName(sni: seq<byte>)
    requires |sni| < 0xfff0
    ensures |ListBytes(ServerNames, [Item(0, sni)])| == |sni| + 3
    ensures ServerName(sni).data == Be16(|sni| + 3) + [0] + Be16(|sni|) + sni
  {
    var it := Item(0, sni);
    ListSnoc(ServerNames, [], it);
    assert [] + [it] == [it];
  }

  lemma SingleProtocol()
    ensures |ListBytes(Protocols, [Item(0, HTTP_1_1)])| == 9
    ensures ALPN == Item(0x10, Be16(9) + [8] + HTTP_1_1)
  {
    var it := Item(0, HTTP_1_1);
    ListSnoc(Protocols, [], it);
    assert [] + [it] == [it];
  }

  /** The hello without its handshake and record headers. */
  method BuildBody(random: seq<byte>, exts: seq<byte>) returns (body: seq<byte>)
    ensures body == [0x03, 0x03] + (random + [0] + (Be16(|CIPHER_SUITES|) + CIPHER_SUITES)
                                    + [1, 0] + (Low16(|exts|) + exts))
  {
    hide Be16, Low16;
    body := [0x03, 0x03];
    body := body + random;
    body := body + [0];
    body := body + Be16(|CIPHER_SUITES|);
    body := body + CIPHER_SUITES;
    body := body + [1];
    body := body + [0];
    body := body + Low16(|exts|);
    body := body + exts;
  }

  /** Record header, handshake header and version. */
  function FrameFor(len: nat): (r: seq<byte>)
    requires len >= 9
    ensures |r| == 11 && r[0] == 0x16 && r[5] == 1
  {
    [0x16, 0x03, 0x01] + Low16(len - 5) + [0x01] + Be24(len - 9) + [0x03, 0x03]
  }

  /** Builds the whole record, for a name of any length. */
  method BuildClientHello(sni: seq<byte>, random: seq<byte>, key: seq<byte>) returns (record: seq<byte>)
    requires |random| == 32 && |key| == 32
    ensures AllFit(Extensions, RestFor(sni, key))
    ensures var exts := NameBytes(sni) + ListBytes(Extensions, RestFor(sni, key));
            && |exts| == ExtensionsLen(|sni|) && |record| == 60 + |exts|
            && record == HelloBytes(FrameFor(|record|), random, [], CIPHER_SUITES, [0], exts)
  {
    hide ListBytes, Be16, Be24, RestFor, Low16, NameBytes;
    var exts := BuildExtensions(sni, key);
    var body := BuildBody(random, exts);
    var handshake: seq<byte> := [0x01];
    handshake := handshake + Be24(|body|);
    handshake := handshake + body;
    record := [0x16];
    record := record + [0x03, 0x01];
    record := record + Low16(|handshake|);
    record := record + handshake;
    assert record == FrameFor(|record|) + body[2..];
  }

  /** The record's own length field is right exactly for names of at most 65381 bytes. */
  lemma RecordLengthExact(sni: seq<byte>)
    ensures var len := 60 + ExtensionsLen(|sni|); FromBe16(FrameFor(len)[3..5]) == len - 5 <==> |sni| <= 65381
  {
    hide Low16, FromBe16;
    var len := 60 + ExtensionsLen(|sni|);
    assert FrameFor(len)[3..5] == Low16(len - 5);
    Low16Keeps(len - 5);
  }

  /** Within sixteen bits of extensions the record is a well-formed hello. */
  lemma IsWellFormed(record: seq<byte>, sni: seq<byte>, random: seq<byte>, key: seq<byte>)
    requires 99 + |sni| < 0x1_0000 && |random| == 32 && |record| >= 9 && AllFit(Extensions, RestFor(sni, key))
    requires var exts := NameBytes(sni) + ListBytes(Extensions, RestFor(sni, key));
             |exts| < 0x1_0000 && record == HelloBytes(FrameFor(|record|), random, [], CIPHER_SUITES, [0], exts)
    ensures AllFit(Extensions, ExtensionsFor(sni, key))
    ensures var hello := ClientHello(FrameFor(|record|), random, [], CIPHER_SUITES, [0], ExtensionsFor(sni, key));
            hello.WellFormed() && record == hello.Encode()
  {
    hide ListBytes, Be16, RestFor, NameBytes, FrameFor, ExtensionsFor;
    NameInFront(sni, key);
  }

  /** The proxy's own extractors read the proxy's own hello: the name it was built for, if and only if that
      is a usable name short enough for the length field of the extensions; and, if short enough, the one
      protocol it offers. */
  method ReadOwnHello(utf8: Utf8, sni: seq<byte>, random: seq<byte>, key: seq<byte>, tail: seq<byte>)
    returns (host: Option<seq<byte>>, protocols: seq<seq<byte>>)
    requires |random| == 32 && |key| == 32
    ensures host == Some(sni) <==> sni != [] && utf8(sni) && 99 + |sni| < 0x1_0000
    ensures 99 + |sni| < 0x1_0000 ==> (host == None || host == Some(sni)) && protocols == [HTTP_1_1]
  {
    hide ListBytes, ExtensionsOf, RestFor, NameBytes, HelloBytes, ExtensionRange, FrameFor, ExtensionsFor;
    var record := BuildClientHello(sni, random, key);
    host := ExtractSni(utf8, record + tail);
    protocols := ExtractAlpn(record + tail);
    if 99 + |sni| < 0x1_0000 {
      IsWellFormed(record, sni, random, key);
      var hello := ClientHello(FrameFor(|record|), random, [], CIPHER_SUITES, [0], ExtensionsFor(sni, key));
      OwnHello(hello, sni, key, tail);
    } else {
      TooLong(utf8, record, sni, random, key, tail);
    }
  }

  /** A name too long for the length field is not found: what the field leaves of the extensions is
      shorter than the name, or the name is longer than a name can be. */
  lemma TooLong(utf8: Utf8, record: seq<byte>, sni: seq<byte>, random: seq<byte>, key: seq<byte>, tail: seq<byte>)
    requires 99 + |sni| >= 0x1_0000 && |random| == 32 && |record| >= 9 && AllFit(Extensions, RestFor(sni, key))
    requires var exts := NameBytes(sni) + ListBytes(Extensions, RestFor(sni, key));
             |exts| == 99 + |sni| && record == HelloBytes(FrameFor(|record|), random, [], CIPHER_SUITES, [0], exts)
    ensures var h := record + tail;
            |h| >= 44 && h[0] == 0x16 && ExtensionsOf(h).Some?
            && FirstUsable(utf8, AllNames(ExtensionsOf(h).value)) != Some(sni)
  {
    hide ListBytes, RestFor, NameBytes, HelloBytes, ExtensionRange, FrameFor, FirstUsable, AllNames, Items;
    var exts := NameBytes(sni) + ListBytes(Extensions, RestFor(sni, key));
    HelloRange(FrameFor(|record|), random, [], CIPHER_SUITES, [0], exts, tail);
    SniWithin(utf8, exts[..|exts| % 0x1_0000]);
  }

  lemma OwnHello(hello: ClientHello, sni: seq<byte>, key: seq<byte>, tail: seq<byte>)
    requires hello.WellFormed() && 99 + |sni| < 0x1_0000 && hello.exts == ExtensionsFor(sni, key)
    ensures var h := hello.Encode() + tail;
            && |h| >= 44 && h[0] == 0x16 && ExtensionsOf(h).Some?
            && AllNames(ExtensionsOf(h).value) == [Item(0, sni)]
            && OfferedProtocols(ExtensionsOf(h).value) == [HTTP_1_1]
  {
    hide ListBytes, ExtensionsOf, MiddleExtensions, Padding, AllNames, OfferedProtocols;
    var middle, padding := MiddleExtensions(key), Padding(99 + |sni|);
    SingleName(sni);
    SingleProtocol();
    assert hello.exts == [] + [ServerName(sni)] + (middle + [ALPN] + padding);
    NamesOfWellFormed(hello, tail, [], [Item(0, sni)], middle + [ALPN] + padding);
    assert hello.exts == [ServerName(sni)] + middle + [ALPN] + padding;
    ProtocolsOfWellFormed(hello, tail, [ServerName(sni)] + middle, [Item(0, HTTP_1_1)], padding);
  }
}
